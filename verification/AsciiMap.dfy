/** The flood fill that draws the ASCII map of a character's surroundings (src/asciimap.c).

    Room cells and door cells share one grid of integers: a cell holds a sector number, one of the three
    special sectors, or a negative door mark.  The grid is written in place by a recursive search; a ghost
    map records, for every room cell drawn so far, the trail of exits along which the search got there. */
module AsciiMap {
  import opened Wrappers

  const CANVAS_WIDTH := 51
  const MAX_MAP := CANVAS_WIDTH
  const MAX_MAP_SIZE := (CANVAS_WIDTH - 1) / 4
  const CENTRE := MAX_MAP / 2
  const MAX_MAP_DIR := 10

  const NUM_ROOM_SECTORS := 37
  const SECT_EMPTY := NUM_ROOM_SECTORS + 1
  const SECT_STRANGE := SECT_EMPTY + 1
  const SECT_HERE := SECT_STRANGE + 1

  const DOOR_NS := -1
  const DOOR_EW := -2
  const DOOR_UP := -3
  const DOOR_DOWN := -4
  const DOOR_DIAGNE := -5
  const DOOR_DIAGNW := -6
  const DOOR_UP_AND_NE := -11
  const DOOR_DOWN_AND_SE := -12
  const DOOR_NONE := -13
  const NUM_DOOR_TYPES := 13

  const NORTH := 0
  const EAST := 1
  const SOUTH := 2
  const WEST := 3
  const UP := 4
  const DOWN := 5
  const NORTHWEST := 6
  const NORTHEAST := 7
  const SOUTHEAST := 8
  const SOUTHWEST := 9

  /** The unsigned "no room" index. */
  const NOWHERE := 0xFFFF_FFFF

  type Dir = d: int | 0 <= d < MAX_MAP_DIR

  // ----- The world and one mapping request -----

  datatype Exit = Exit(toRoom: nat, closed: bool, hidden: bool)
  datatype Room = Room(sector: int, exits: seq<Option<Exit>>)
  datatype Cell = Cell(x: int, y: int)

  /** What stays fixed during one drawing: the world, the room the character is in, whether hidden exits
      are visible, the kind of map, and the square window inside which exits are followed. */
  datatype View = View(world: seq<Room>, here: nat, holylight: bool, worldmap: bool, min: int, max: int)

  /** Every room has ten exit slots, a drawable sector, and exits that lead to existing rooms. */
  ghost predicate WorldOk(world: seq<Room>) {
    forall r :: 0 <= r < |world| ==>
      && 0 <= world[r].sector < NUM_ROOM_SECTORS
      && |world[r].exits| == MAX_MAP_DIR
      && forall d: Dir :: world[r].exits[d].Some? ==>
           var e := world[r].exits[d].value;
           e.toRoom > 0 && e.toRoom != NOWHERE ==> e.toRoom < |world|
  }

  function Step(v: View): int {
    if v.worldmap then 1 else 2
  }

  /** The window leaves room for one step in every direction. */
  ghost predicate ViewOk(v: View) {
    && WorldOk(v.world)
    && Step(v) <= v.min && v.max + Step(v) < MAX_MAP
  }

  // ----- The direction tables -----

  function Dx(d: Dir): int {
    if d == NORTH || d == NORTHWEST || d == NORTHEAST then -1
    else if d == SOUTH || d == SOUTHEAST || d == SOUTHWEST then 1
    else 0
  }

  function Dy(d: Dir): int {
    if d == EAST || d == NORTHEAST || d == SOUTHEAST then 1
    else if d == WEST || d == NORTHWEST || d == SOUTHWEST then -1
    else 0
  }

  /** The cell one followed exit away (up and down stay on the same cell). */
  function Neighbour(v: View, c: Cell, d: Dir): Cell {
    Cell(c.x + Step(v) * Dx(d), c.y + Step(v) * Dy(d))
  }

  /** Offset of the door mark; up shares its cell with north-east, down with south-east. */
  function DoorOffset(d: Dir): (int, int) {
    if d == UP then (-1, 1) else if d == DOWN then (1, 1) else (Dx(d), Dy(d))
  }

  function DoorCell(c: Cell, d: Dir): Cell {
    Cell(c.x + DoorOffset(d).0, c.y + DoorOffset(d).1)
  }

  function DoorMark(d: Dir): int {
    if d == NORTH || d == SOUTH then DOOR_NS
    else if d == EAST || d == WEST then DOOR_EW
    else if d == UP then DOOR_UP
    else if d == DOWN then DOOR_DOWN
    else if d == NORTHWEST || d == SOUTHEAST then DOOR_DIAGNW
    else DOOR_DIAGNE
  }

  function RevDir(d: Dir): Dir {
    if d < 4 then (d + 2) % 4
    else if d == UP then DOWN
    else if d == DOWN then UP
    else if d == NORTHWEST then SOUTHEAST
    else if d == NORTHEAST then SOUTHWEST
    else if d == SOUTHEAST then NORTHWEST
    else NORTHEAST
  }

  /** The compass: the reverse of a direction is another one and leads back, north is one step up the grid, east one
      step to the right, and a diagonal is the sum of both. */
  lemma Compass(v: View, c: Cell, d: Dir)
    ensures RevDir(d) != d && RevDir(RevDir(d)) == d && Neighbour(v, Neighbour(v, c, d), RevDir(d)) == c
    ensures Neighbour(v, c, d) == c <==> d == UP || d == DOWN
    ensures Neighbour(v, c, NORTH) == Cell(c.x - if v.worldmap then 1 else 2, c.y)
    ensures Neighbour(v, c, EAST) == Cell(c.x, c.y + if v.worldmap then 1 else 2)
    ensures Neighbour(v, c, NORTHEAST) == Neighbour(v, Neighbour(v, c, NORTH), EAST)
    ensures Neighbour(v, c, NORTHWEST) == Neighbour(v, Neighbour(v, c, NORTH), WEST)
    ensures Neighbour(v, c, SOUTHEAST) == Neighbour(v, Neighbour(v, c, SOUTH), EAST)
    ensures Neighbour(v, c, SOUTHWEST) == Neighbour(v, Neighbour(v, c, SOUTH), WEST)
  {
    Opposite(d);
    Opposite(NORTH);
    Opposite(EAST);
  }

  lemma Opposite(d: Dir)
    ensures RevDir(d) != d && RevDir(RevDir(d)) == d
    ensures Dx(RevDir(d)) == -Dx(d) && Dy(RevDir(d)) == -Dy(d)
  {
  }

  /** Doors: on a room map the door of an exit lies halfway to the next room, with the mark that the room behind draws
      there too; the doors of up and down lie where those of the two eastern diagonals do. */
  lemma DoorsAreHalfway(v: View, c: Cell, d: Dir)
    requires !v.worldmap
    ensures d != UP && d != DOWN ==>
              && DoorCell(Neighbour(v, c, d), RevDir(d)) == DoorCell(c, d)
              && DoorMark(RevDir(d)) == DoorMark(d)
    ensures DoorCell(c, UP) == DoorCell(c, NORTHEAST) && DoorCell(c, DOWN) == DoorCell(c, SOUTHEAST)
    ensures [DoorMark(NORTH), DoorMark(EAST), DoorMark(UP), DoorMark(DOWN), DoorMark(NORTHWEST), DoorMark(NORTHEAST)]
              == [DOOR_NS, DOOR_EW, DOOR_UP, DOOR_DOWN, DOOR_DIAGNW, DOOR_DIAGNE]
  {
    Opposite(d);
  }

  // ----- Exits -----

  function ExitOf(v: View, room: nat, d: Dir): Option<Exit> {
    if room < |v.world| && d < |v.world[room].exits| then v.world[room].exits[d] else None
  }

  /** The exit exists, leads somewhere, is not closed, and is visible to the character. */
  predicate OpenExit(v: View, room: nat, d: Dir) {
    match ExitOf(v, room, d)
    case None => false
    case Some(e) => e.toRoom > 0 && e.toRoom != NOWHERE && !e.closed && (!e.hidden || v.holylight)
  }

  function Target(v: View, room: nat, d: Dir): nat {
    match ExitOf(v, room, d)
    case None => 0
    case Some(e) => e.toRoom
  }

  /** The room behind the exit has an exit in the reverse direction that leads elsewhere. */
  predicate MazeExit(v: View, room: nat, d: Dir) {
    match ExitOf(v, Target(v, room, d), RevDir(d))
    case None => false
    case Some(back) => back.toRoom != room
  }

  predicate Follows(v: View, room: nat, d: Dir) {
    OpenExit(v, room, d) && !MazeExit(v, room, d)
  }

  /** The first direction whose open exit does not lead straight back, or MAX_MAP_DIR: the search of a
      room stops there. */
  function Cut(v: View, room: nat, from: nat := 0): (k: nat)
    requires from <= MAX_MAP_DIR
    ensures from <= k <= MAX_MAP_DIR
    ensures forall d: Dir :: from <= d < k && OpenExit(v, room, d) ==> !MazeExit(v, room, d)
    ensures k < MAX_MAP_DIR ==> OpenExit(v, room, k) && MazeExit(v, room, k)
    decreases MAX_MAP_DIR - from
  {
    if from == MAX_MAP_DIR || (OpenExit(v, room, from) && MazeExit(v, room, from)) then from
    else Cut(v, room, from + 1)
  }

  // ----- Trails -----

  /** A walk from the room the drawing starts at. */
  datatype Trail = Start | Then(before: Trail, dir: Dir)

  ghost function EndRoom(v: View, start: nat, t: Trail): nat {
    match t
    case Start => start
    case Then(p, d) => Target(v, EndRoom(v, start, p), d)
  }

  /** The walk can be made: each of its exits is open and is not a maze exit. */
  ghost predicate Walkable(v: View, start: nat, t: Trail) {
    match t
    case Start => true
    case Then(p, d) => Walkable(v, start, p) && Follows(v, EndRoom(v, start, p), d)
  }

  /** Where the walk ends on the grid: the centre plus the sum of its offsets. */
  ghost function EndCell(v: View, t: Trail): Cell {
    match t
    case Start => Cell(CENTRE, CENTRE)
    case Then(p, d) => Neighbour(v, EndCell(v, p), d)
  }

  // ----- Cells -----

  predicate Inside(c: Cell) {
    0 <= c.x < MAX_MAP && 0 <= c.y < MAX_MAP
  }

  /** On a normal map rooms sit on odd coordinates; on a world map every cell is a room cell. */
  predicate RoomCell(v: View, c: Cell) {
    Inside(c) && (v.worldmap || (c.x % 2 == 1 && c.y % 2 == 1))
  }

  predicate InWindow(v: View, c: Cell) {
    v.min <= c.x <= v.max && v.min <= c.y <= v.max
  }

  /** What blanking the grid puts into a cell. */
  function Blank(v: View, y: int): int {
    if y % 2 == 0 && !v.worldmap then DOOR_NONE else SECT_EMPTY
  }

  /** What a room shows when the search enters it ... */
  function Plain(v: View, room: nat): int {
    if room == v.here then SECT_HERE
    else if room < |v.world| then v.world[room].sector
    else SECT_EMPTY
  }

  /** ... and when the search leaves it: a maze room inside the window turns strange. */
  function Shown(v: View, room: nat, c: Cell): int {
    if InWindow(v, c) && Cut(v, room) < MAX_MAP_DIR then SECT_STRANGE else Plain(v, room)
  }

  // ----- The picture -----

  /** The contents of the grid: a value for every cell inside it and for no other. */
  type Canvas = map<Cell, int>

  ghost predicate Full(g: Canvas) {
    forall c :: c in g <==> Inside(c)
  }

  /** The first step back along a trail: a drawn cell of the window, with the rest of the trail. */
  ghost predicate RootedAt(v: View, start: nat, drawn: map<Cell, Trail>, p: Cell, t: Trail, d: Dir) {
    p in drawn && drawn[p] == t && InWindow(v, p) && d < Cut(v, EndRoom(v, start, t))
  }

  /** A drawn room cell lies at the end of a walkable trail, and the trail without its last step belongs to
      another drawn cell of the window, so the drawn cells form a tree rooted at the centre. */
  ghost predicate TrailOk(v: View, start: nat, drawn: map<Cell, Trail>, c: Cell, t: Trail) {
    && RoomCell(v, c)
    && Walkable(v, start, t)
    && EndCell(v, t) == c
    && (t.Then? ==> RootedAt(v, start, drawn, EndCell(v, t.before), t.before, t.dir))
  }

  ghost predicate TrailsOk(v: View, start: nat, drawn: map<Cell, Trail>) {
    forall c {:trigger TrailOk(v, start, drawn, c, drawn[c])} :: c in drawn ==> TrailOk(v, start, drawn, c, drawn[c])
  }

  /** A drawn room of the window has an exit in direction d whose door is at e. */
  ghost predicate HasDoor(v: View, start: nat, drawn: map<Cell, Trail>, e: Cell, d: Dir) {
    var c := Cell(e.x - DoorOffset(d).0, e.y - DoorOffset(d).1);
    && c in drawn && InWindow(v, c)
    && var room := EndRoom(v, start, drawn[c]);
       d < Cut(v, room) && OpenExit(v, room, d)
  }

  /** The marks of all the exits whose door is at e. */
  ghost function MarksAt(v: View, start: nat, drawn: map<Cell, Trail>, e: Cell): set<int> {
    set d: Dir | HasDoor(v, start, drawn, e, d) :: DoorMark(d)
  }

  /** Every stroke of a door mark belongs to one of the exits whose marks are given. */
  predicate Justified(marks: set<int>, mark: int) {
    if mark == DOOR_UP_AND_NE then {DOOR_UP, DOOR_DIAGNE} <= marks
    else if mark == DOOR_DOWN_AND_SE then {DOOR_DOWN, DOOR_DIAGNW} <= marks
    else mark in marks
  }

  ghost predicate Marked(v: View, g: Canvas, e: Cell) {
    e in g && g[e] != Blank(v, e.y)
  }

  /** The search has dealt with direction d of the room at c: the neighbour is drawn and so is the door. */
  ghost predicate Searched(v: View, g: Canvas, drawn: map<Cell, Trail>, c: Cell, d: Dir) {
    Neighbour(v, c, d) in drawn && (v.worldmap || Marked(v, g, DoorCell(c, d)))
  }

  /** Every open exit of the room at c below direction k has been dealt with. */
  ghost predicate SearchedTo(v: View, g: Canvas, drawn: map<Cell, Trail>, c: Cell, room: nat, k: nat) {
    forall d: Dir {:trigger Searched(v, g, drawn, c, d)} ::
      d < k && OpenExit(v, room, d) ==> Searched(v, g, drawn, c, d)
  }

  /** A drawn cell whose search is finished. */
  ghost predicate Finished(v: View, g: Canvas, drawn: map<Cell, Trail>, c: Cell, room: nat) {
    && c in g && g[c] == Shown(v, room, c)
    && (InWindow(v, c) ==> SearchedTo(v, g, drawn, c, room, Cut(v, room)))
  }

  ghost predicate CellOk(v: View, start: nat, g: Canvas, drawn: map<Cell, Trail>, busy: set<Cell>, c: Cell) {
    if c in drawn then
      var room := EndRoom(v, start, drawn[c]);
      if c in busy then c in g && g[c] == Plain(v, room) else Finished(v, g, drawn, c, room)
    else if RoomCell(v, c) then c in g && g[c] == SECT_EMPTY
    else Marked(v, g, c) ==> Justified(MarksAt(v, start, drawn, c), g[c])
  }

  /** The state of the grid while the cells in `busy` are still being searched. */
  ghost predicate Picture(v: View, start: nat, g: Canvas, drawn: map<Cell, Trail>, busy: set<Cell>) {
    && ViewOk(v) && start < |v.world| && Full(g)
    && TrailsOk(v, start, drawn)
    && forall c {:trigger CellOk(v, start, g, drawn, busy, c)} :: Inside(c) ==> CellOk(v, start, g, drawn, busy, c)
  }

  ghost function AllCells(): set<Cell> {
    set x, y | 0 <= x < MAX_MAP && 0 <= y < MAX_MAP :: Cell(x, y)
  }

  // ----- Steps of the search, on grid contents -----

  /** Progress of the drawing: cells stay drawn with their trails, and doors stay marked. */
  ghost predicate Grows(v: View, g: Canvas, drawn: map<Cell, Trail>, g': Canvas, drawn': map<Cell, Trail>) {
    && (forall c :: c in drawn ==> c in drawn' && drawn'[c] == drawn[c])
    && (forall e :: !RoomCell(v, e) && Marked(v, g, e) ==> Marked(v, g', e))
  }

  lemma GrowsOn(v: View, g: Canvas, drawn: map<Cell, Trail>, g1: Canvas, drawn1: map<Cell, Trail>,
                g2: Canvas, drawn2: map<Cell, Trail>)
    requires Grows(v, g, drawn, g1, drawn1) && Grows(v, g1, drawn1, g2, drawn2)
    ensures Grows(v, g, drawn, g2, drawn2)
  {
  }

  lemma MarksStay(v: View, start: nat, drawn: map<Cell, Trail>, drawn': map<Cell, Trail>, e: Cell)
    requires forall c :: c in drawn ==> c in drawn' && drawn'[c] == drawn[c]
    ensures MarksAt(v, start, drawn, e) <= MarksAt(v, start, drawn', e)
  {
    assert forall d: Dir :: HasDoor(v, start, drawn, e, d) ==> HasDoor(v, start, drawn', e, d);
  }

  /** A door is never on a room cell of a normal map, and never outside the grid. */
  lemma DoorsAreBetweenRooms(v: View, c: Cell, d: Dir)
    requires ViewOk(v) && RoomCell(v, c) && InWindow(v, c)
    ensures Inside(DoorCell(c, d)) && RoomCell(v, Neighbour(v, c, d))
    ensures !v.worldmap ==> !RoomCell(v, DoorCell(c, d))
  {
    DoorMoves(d);
    if !v.worldmap {
      OddSteps(c.x, Dx(d));
      OddSteps(c.y, Dy(d));
      OddSteps(c.x, DoorOffset(d).0);
      OddSteps(c.y, DoorOffset(d).1);
    }
  }

  lemma OddSteps(x: int, k: int)
    requires x % 2 == 1 && -1 <= k <= 1
    ensures (x + 2 * k) % 2 == 1 && ((x + k) % 2 == 1 <==> k == 0)
  {
  }

  lemma DoorMoves(d: Dir)
    ensures -1 <= Dx(d) <= 1 && -1 <= Dy(d) <= 1
    ensures -1 <= DoorOffset(d).0 <= 1 && -1 <= DoorOffset(d).1 <= 1
    ensures DoorOffset(d).0 != 0 || DoorOffset(d).1 != 0
  {
  }

  lemma SearchedStays(v: View, g: Canvas, drawn: map<Cell, Trail>, g': Canvas, drawn': map<Cell, Trail>,
                      c: Cell, room: nat, k: nat)
    requires ViewOk(v) && RoomCell(v, c) && InWindow(v, c)
    requires Grows(v, g, drawn, g', drawn') && SearchedTo(v, g, drawn, c, room, k)
    ensures SearchedTo(v, g', drawn', c, room, k)
  {
    forall d: Dir | d < k && OpenExit(v, room, d)
      ensures Searched(v, g', drawn', c, d)
    {
      assert Searched(v, g, drawn, c, d);
      DoorsAreBetweenRooms(v, c, d);
    }
  }

  lemma SearchedFurther(v: View, g: Canvas, drawn: map<Cell, Trail>, g': Canvas, drawn': map<Cell, Trail>,
                        c: Cell, room: nat, d: Dir)
    requires ViewOk(v) && RoomCell(v, c) && InWindow(v, c)
    requires Grows(v, g, drawn, g', drawn') && SearchedTo(v, g, drawn, c, room, d)
    requires Searched(v, g', drawn', c, d)
    ensures SearchedTo(v, g', drawn', c, room, d + 1)
  {
    SearchedStays(v, g, drawn, g', drawn', c, room, d);
  }

  /** A cell that a step does not touch stays as it should be. */
  lemma CellStays(v: View, start: nat, g: Canvas, drawn: map<Cell, Trail>, busy: set<Cell>,
                  g': Canvas, drawn': map<Cell, Trail>, busy': set<Cell>, c: Cell)
    requires ViewOk(v) && TrailsOk(v, start, drawn)
    requires Grows(v, g, drawn, g', drawn')
    requires c in g && c in g' && g'[c] == g[c] && (c in drawn' ==> c in drawn) && (c in busy <==> c in busy')
    requires CellOk(v, start, g, drawn, busy, c)
    ensures CellOk(v, start, g', drawn', busy', c)
  {
    if c in drawn {
      assert TrailOk(v, start, drawn, c, drawn[c]);
      var room := EndRoom(v, start, drawn[c]);
      if c !in busy && InWindow(v, c) {
        SearchedStays(v, g, drawn, g', drawn', c, room, Cut(v, room));
      }
    } else {
      MarksStay(v, start, drawn, drawn', c);
    }
  }

  /** When a step changes one cell only, the picture is right again as soon as that cell is. */
  lemma PictureAfter(v: View, start: nat, g: Canvas, drawn: map<Cell, Trail>, busy: set<Cell>,
                     g': Canvas, drawn': map<Cell, Trail>, busy': set<Cell>, x: Cell)
    requires Picture(v, start, g, drawn, busy)
    requires Full(g') && TrailsOk(v, start, drawn') && Grows(v, g, drawn, g', drawn')
    requires forall b :: Inside(b) && b != x ==> g'[b] == g[b]
    requires drawn'.Keys <= drawn.Keys + {x} && busy - {x} == busy' - {x}
    requires CellOk(v, start, g', drawn', busy', x)
    ensures Picture(v, start, g', drawn', busy')
  {
    forall b | Inside(b)
      ensures CellOk(v, start, g', drawn', busy', b)
    {
      if b != x {
        assert CellOk(v, start, g, drawn, busy, b);
        assert b in busy - {x} <==> b in busy' - {x};
        CellStays(v, start, g, drawn, busy, g', drawn', busy', b);
      }
    }
  }

  /** Drawing one more cell keeps every trail. */
  lemma TrailsExtend(v: View, start: nat, drawn: map<Cell, Trail>, c: Cell, t: Trail)
    requires TrailsOk(v, start, drawn)
    requires c !in drawn && TrailOk(v, start, drawn, c, t)
    ensures TrailsOk(v, start, drawn[c := t])
  {
    forall b | b in drawn || b == c
      ensures TrailOk(v, start, drawn[c := t], b, drawn[c := t][b])
    {
      assert b != c ==> TrailOk(v, start, drawn, b, drawn[b]);
    }
  }

  lemma EnterGrows(v: View, g: Canvas, drawn: map<Cell, Trail>, c: Cell, t: Trail, shown: int)
    requires RoomCell(v, c) && c !in drawn
    ensures Grows(v, g, drawn, g[c := shown], drawn[c := t])
  {
  }

  /** Entering a room draws its cell and makes it busy. */
  lemma EnterKeepsPicture(v: View, start: nat, g: Canvas, drawn: map<Cell, Trail>, busy: set<Cell>, c: Cell, t: Trail,
                          room: nat)
    requires Picture(v, start, g, drawn, busy)
    requires c !in drawn && TrailOk(v, start, drawn, c, t) && room == EndRoom(v, start, t)
    ensures Picture(v, start, g[c := Plain(v, room)], drawn[c := t], busy + {c})
    ensures Grows(v, g, drawn, g[c := Plain(v, room)], drawn[c := t])
  {
    TrailsExtend(v, start, drawn, c, t);
    EnterGrows(v, g, drawn, c, t, Plain(v, room));
    PictureAfter(v, start, g, drawn, busy, g[c := Plain(v, room)], drawn[c := t], busy + {c}, c);
  }

  /** The value of a door cell after an exit in direction d is drawn over w. */
  function Stamp(w: int, d: Dir): int {
    if w == DOOR_NONE || w == SECT_EMPTY then DoorMark(d)
    else if (d == NORTHEAST && w == DOOR_UP) || (d == UP && w == DOOR_DIAGNE) then DOOR_UP_AND_NE
    else if (d == SOUTHEAST && w == DOOR_DOWN) || (d == DOWN && w == DOOR_DIAGNW) then DOOR_DOWN_AND_SE
    else w
  }

  lemma StampJustified(marks: set<int>, d: Dir, w: int)
    requires DoorMark(d) in marks
    requires w == DOOR_NONE || w == SECT_EMPTY || Justified(marks, w)
    ensures Justified(marks, Stamp(w, d))
  {
  }

  /** Stamping a door between rooms. */
  lemma StampKeepsPicture(v: View, start: nat, g: Canvas, drawn: map<Cell, Trail>, busy: set<Cell>, e: Cell, d: Dir)
    requires Picture(v, start, g, drawn, busy) && Inside(e) && !RoomCell(v, e)
    requires HasDoor(v, start, drawn, e, d)
    ensures Picture(v, start, g[e := Stamp(g[e], d)], drawn, busy)
    ensures Grows(v, g, drawn, g[e := Stamp(g[e], d)], drawn)
    ensures Marked(v, g[e := Stamp(g[e], d)], e)
  {
    assert CellOk(v, start, g, drawn, busy, e);
    assert e in drawn ==> TrailOk(v, start, drawn, e, drawn[e]);
    assert DoorMark(d) in MarksAt(v, start, drawn, e);
    StampJustified(MarksAt(v, start, drawn, e), d, g[e]);
    StampMarks(v, e, d, g[e]);
    PictureAfter(v, start, g, drawn, busy, g[e := Stamp(g[e], d)], drawn, busy, e);
  }

  lemma StampMarks(v: View, e: Cell, d: Dir, w: int)
    requires Inside(e) && !RoomCell(v, e)
    ensures Stamp(w, d) != Blank(v, e.y)
  {
  }

  /** Leaving a room: its cell shows the room, or the maze sign, and is busy no more. */
  lemma LeaveKeepsPicture(v: View, start: nat, g: Canvas, drawn: map<Cell, Trail>, busy: set<Cell>, c: Cell, room: nat)
    requires Picture(v, start, g, drawn, busy + {c}) && c !in busy
    requires c in drawn && room == EndRoom(v, start, drawn[c])
    requires InWindow(v, c) ==> SearchedTo(v, g, drawn, c, room, Cut(v, room))
    ensures Picture(v, start, g[c := Shown(v, room, c)], drawn, busy)
    ensures Grows(v, g, drawn, g[c := Shown(v, room, c)], drawn)
  {
    var g' := g[c := Shown(v, room, c)];
    assert TrailOk(v, start, drawn, c, drawn[c]);
    if InWindow(v, c) {
      SearchedStays(v, g, drawn, g', drawn, c, room, Cut(v, room));
    }
    PictureAfter(v, start, g, drawn, busy + {c}, g', drawn, busy, c);
  }

  /** Leaving a room whose cell already shows what it should. */
  lemma LeaveUnchanged(v: View, start: nat, g: Canvas, drawn: map<Cell, Trail>, busy: set<Cell>, c: Cell, room: nat)
    requires Picture(v, start, g, drawn, busy + {c}) && c !in busy
    requires c in drawn && room == EndRoom(v, start, drawn[c])
    requires InWindow(v, c) ==> Cut(v, room) == MAX_MAP_DIR && SearchedTo(v, g, drawn, c, room, MAX_MAP_DIR)
    ensures Picture(v, start, g, drawn, busy)
  {
    LeaveKeepsPicture(v, start, g, drawn, busy, c, room);
    assert CellOk(v, start, g, drawn, busy + {c}, c) && TrailOk(v, start, drawn, c, drawn[c]);
    assert g[c := Shown(v, room, c)] == g;
  }

  /** A blank grid is the picture in which nothing is drawn yet. */
  lemma BlankPicture(v: View, start: nat, g: Canvas)
    requires ViewOk(v) && start < |v.world| && Full(g)
    requires forall c :: Inside(c) ==> g[c] == Blank(v, c.y)
    ensures Picture(v, start, g, map[], {})
  {
  }

  lemma RoomExists(v: View, start: nat, t: Trail)
    requires WorldOk(v.world) && start < |v.world| && Walkable(v, start, t)
    ensures EndRoom(v, start, t) < |v.world|
  {
  }

  /** One followed exit more makes a good trail to the neighbouring cell. */
  lemma NextTrail(v: View, start: nat, drawn: map<Cell, Trail>, c: Cell, d: Dir)
    requires ViewOk(v) && c in drawn && TrailOk(v, start, drawn, c, drawn[c]) && InWindow(v, c)
    requires var room := EndRoom(v, start, drawn[c]); OpenExit(v, room, d) && d < Cut(v, room)
    ensures TrailOk(v, start, drawn, Neighbour(v, c, d), Then(drawn[c], d))
  {
    DoorsAreBetweenRooms(v, c, d);
  }

  lemma FewerCellsLeft(drawn: map<Cell, Trail>, drawn': map<Cell, Trail>, c: Cell)
    requires Inside(c) && c !in drawn && c in drawn' && drawn.Keys <= drawn'.Keys
    ensures AllCells() - drawn'.Keys < AllCells() - drawn.Keys
  {
    assert c == Cell(c.x, c.y) && c in AllCells();
  }

  lemma EmptyIffNotDrawn(v: View, start: nat, g: Canvas, drawn: map<Cell, Trail>, busy: set<Cell>, c: Cell)
    requires Picture(v, start, g, drawn, busy) && RoomCell(v, c)
    ensures c in drawn <==> g[c] != SECT_EMPTY
    ensures g[c] >= 0
  {
    assert CellOk(v, start, g, drawn, busy, c);
    if c in drawn {
      assert TrailOk(v, start, drawn, c, drawn[c]);
      RoomExists(v, start, drawn[c]);
    }
  }

  /** The "virtual exit" inside a room that is larger than one cell. */
  predicate VirtualExit(door: Dir, xpos: int, ypos: int, nsSize: int, ewSize: int) {
    && 0 <= xpos + DoorOffset(door).0 <= nsSize
    && 0 <= ypos + DoorOffset(door).1 <= ewSize
  }

  /** The exit is on another cell of a room that is larger than one cell. */
  predicate DoorElsewhere(door: Dir, xpos: int, ypos: int, nsSize: int, ewSize: int, xExit: int, yExit: int) {
    || (Dx(door) < 0 && (xpos > 0 || ypos != yExit))
    || (Dx(door) > 0 && (xpos < nsSize || ypos != yExit))
    || (Dy(door) > 0 && (ypos < ewSize || xpos != xExit))
    || (Dy(door) < 0 && (ypos > 0 || xpos != xExit))
  }

  /** The position at which an exit enters a room larger than one cell: at the opposite side, and else where its
      reverse exit is, or in the middle if it has none. */
  function Prospect(door: Dir, nsSize: nat, ewSize: nat, hasReverse: bool, xExit: int, yExit: int): (int, int) {
    var x := if hasReverse then xExit else nsSize / 2;
    var y := if hasReverse then yExit else ewSize / 2;
    if door == NORTH then (nsSize, y)
    else if door == SOUTH then (0, y)
    else if door == WEST then (x, ewSize)
    else if door == EAST then (x, 0)
    else if door == UP || door == DOWN then (0, 0)
    else (x, y)
  }

  /** In rooms of one cell every exit enters at the only position there is. */
  lemma ProspectIsOrigin(door: Dir, hasReverse: bool)
    ensures Prospect(door, 0, 0, hasReverse, 0, 0) == (0, 0)
  {
  }

  /** No room is larger than one cell, so the branches for such rooms, one of which would index a table of
      four entries by any of the ten directions, are never taken. */
  lemma RoomsAreSingleCells(door: Dir)
    ensures !VirtualExit(door, 0, 0, 0, 0) && !DoorElsewhere(door, 0, 0, 0, 0, 0, 0)
  {
  }

  // ----- The search itself -----

  class Mapper {
    const grid: array2<int>
    ghost var drawn: map<Cell, Trail>

    constructor ()
      ensures Square() && fresh(grid)
    {
      grid := new int[MAX_MAP, MAX_MAP];
    }

    ghost predicate Square() {
      grid.Length0 == MAX_MAP && grid.Length1 == MAX_MAP
    }

    ghost function Contents(): (g: Canvas)
      requires Square()
      reads grid
      ensures Full(g)
    {
      map c | c in AllCells() :: grid[c.x, c.y]
    }

    method Put(c: Cell, value: int)
      requires Square() && Inside(c)
      modifies grid
      ensures Contents() == old(Contents())[c := value]
    {
      grid[c.x, c.y] := value;
    }

    /** Marks a room as visited. */
    method Visit(v: View, room: nat, c: Cell, ghost start: nat, ghost t: Trail, ghost busy: set<Cell>)
      requires Square() && Picture(v, start, Contents(), drawn, busy)
      requires c !in drawn && TrailOk(v, start, drawn, c, t) && room == EndRoom(v, start, t)
      modifies this`drawn, grid
      ensures Picture(v, start, Contents(), drawn, busy + {c})
      ensures Grows(v, old(Contents()), old(drawn), Contents(), drawn)
      ensures drawn == old(drawn)[c := t] && Contents() == old(Contents())[c := Plain(v, room)]
    {
      RoomExists(v, start, t);
      EnterKeepsPicture(v, start, Contents(), drawn, busy, c, t, room);
      if room == v.here {
        Put(c, SECT_HERE);
      } else {
        Put(c, v.world[room].sector);
      }
      drawn := drawn[c := t];
    }

    /** Draws `room` at (x, y) and everything reachable from it.  `xpos` and `ypos` are the position inside a
        room larger than one cell; they stay 0 because no room has such a size. */
    method MapArea(v: View, room: nat, x: int, y: int, xpos: int, ypos: int,
                   ghost start: nat, ghost t: Trail, ghost busy: set<Cell>)
      requires Square() && Picture(v, start, Contents(), drawn, busy) && busy <= drawn.Keys
      requires var c := Cell(x, y); c !in drawn && TrailOk(v, start, drawn, c, t) && room == EndRoom(v, start, t)
      requires xpos == 0 && ypos == 0
      modifies this`drawn, grid
      ensures Picture(v, start, Contents(), drawn, busy)
      ensures Grows(v, old(Contents()), old(drawn), Contents(), drawn)
      ensures Cell(x, y) in drawn && drawn[Cell(x, y)] == t
      decreases AllCells() - drawn.Keys, 0
    {
      var c := Cell(x, y);
      ghost var g0, drawn0 := Contents(), drawn;
      EmptyIffNotDrawn(v, start, Contents(), drawn, busy, c);
      if grid[x, y] < 0 {
        assert false;
      }
      Visit(v, room, c, start, t, busy);
      ghost var g1, drawn1 := Contents(), drawn;

      if x < v.min || y < v.min || x > v.max || y > v.max {
        LeaveUnchanged(v, start, Contents(), drawn, busy, c, room);
        return;
      }

      FewerCellsLeft(drawn0, drawn, c);
      SearchExits(v, room, c, xpos, ypos, start, t, busy);
      GrowsOn(v, g0, drawn0, g1, drawn1, Contents(), drawn);
    }

    /** The loop over the ten directions; a maze exit ends it. */
    method SearchExits(v: View, room: nat, c: Cell, xpos: int, ypos: int,
                       ghost start: nat, ghost t: Trail, ghost busy: set<Cell>)
      requires Square() && Picture(v, start, Contents(), drawn, busy + {c}) && busy + {c} <= drawn.Keys
      requires c !in busy && drawn[c] == t && Walkable(v, start, t) && room == EndRoom(v, start, t)
      requires InWindow(v, c) && xpos == 0 && ypos == 0
      modifies this`drawn, grid
      ensures Picture(v, start, Contents(), drawn, busy)
      ensures Grows(v, old(Contents()), old(drawn), Contents(), drawn)
      decreases AllCells() - drawn.Keys, 3
    {
      var ewSize: nat, nsSize: nat := 0, 0;
      ghost var g0, drawn0 := Contents(), drawn;
      var door := 0;
      while door < MAX_MAP_DIR
        invariant 0 <= door <= Cut(v, room)
        invariant Picture(v, start, Contents(), drawn, busy + {c}) && c in drawn && drawn[c] == t
        invariant Grows(v, g0, drawn0, Contents(), drawn)
        invariant SearchedTo(v, Contents(), drawn, c, room, door)
      {
        RoomsAreSingleCells(door);
        if VirtualExit(door, xpos, ypos, nsSize, ewSize) {
          assert false;
        }
        if OpenExit(v, room, door) {
          if DoorElsewhere(door, xpos, ypos, nsSize, ewSize, 0, 0) {
            assert false;
          }
          if MazeExit(v, room, door) {
            ghost var g1 := Contents();
            LeaveKeepsPicture(v, start, g1, drawn, busy, c, room);
            Put(c, SECT_STRANGE);
            GrowsOn(v, g0, drawn0, g1, drawn, Contents(), drawn);
            return;
          }
          ghost var g1, drawn1 := Contents(), drawn;
          Follow(v, room, c, door, nsSize, ewSize, start, t, busy + {c});
          GrowsOn(v, g0, drawn0, g1, drawn1, Contents(), drawn);
        }
        door := door + 1;
      }
      LeaveUnchanged(v, start, Contents(), drawn, busy, c, room);
    }

    /** Draws the door of an exit: the first mark wins, except that up and north-east (down and south-east),
        which share a cell, are drawn together. */
    method DrawDoor(v: View, c: Cell, door: Dir, ghost start: nat, ghost busy: set<Cell>)
      requires Square() && Picture(v, start, Contents(), drawn, busy)
      requires Inside(DoorCell(c, door)) && !RoomCell(v, DoorCell(c, door))
      requires HasDoor(v, start, drawn, DoorCell(c, door), door)
      modifies grid
      ensures Picture(v, start, Contents(), drawn, busy)
      ensures Grows(v, old(Contents()), drawn, Contents(), drawn)
      ensures Marked(v, Contents(), DoorCell(c, door))
    {
      var e := DoorCell(c, door);
      StampKeepsPicture(v, start, Contents(), drawn, busy, e, door);
      var w := grid[e.x, e.y];
      if w == DOOR_NONE || w == SECT_EMPTY {
        Put(e, DoorMark(door));
      } else if (door == NORTHEAST && w == DOOR_UP) || (door == UP && w == DOOR_DIAGNE) {
        Put(e, DOOR_UP_AND_NE);
      } else if (door == SOUTHEAST && w == DOOR_DOWN) || (door == DOWN && w == DOOR_DIAGNW) {
        Put(e, DOOR_DOWN_AND_SE);
      } else {
        assert Contents()[e := Stamp(w, door)] == Contents();
      }
    }

    /** Where an exit enters the room behind it: in rooms of one cell, at the origin. */
    method EntryPosition(v: View, room: nat, door: Dir, nsSize: nat, ewSize: nat, xExit: int, yExit: int)
      returns (x: int, y: int)
      ensures var hasReverse := ExitOf(v, Target(v, room, door), RevDir(door)).Some?;
              (x, y) == Prospect(door, nsSize, ewSize, hasReverse, xExit, yExit)
      ensures nsSize == ewSize == xExit == yExit == 0 ==> x == y == 0
    {
      var hasReverse := ExitOf(v, Target(v, room, door), RevDir(door)).Some?;
      ProspectIsOrigin(door, hasReverse);
      x, y := 0, 0;
      if door == NORTH || door == SOUTH {
        x := if door == NORTH then nsSize else 0;
        y := if hasReverse then yExit else ewSize / 2;
      } else if door == WEST || door == EAST {
        y := if door == WEST then ewSize else 0;
        x := if hasReverse then xExit else nsSize / 2;
      } else if door != UP && door != DOWN {
        x := if hasReverse then xExit else nsSize / 2;
        y := if hasReverse then yExit else ewSize / 2;
      }
    }

    /** Follows one open exit that is not a maze exit: draws its door, then the room behind it. */
    method Follow(v: View, room: nat, c: Cell, door: Dir, nsSize: nat, ewSize: nat,
                  ghost start: nat, ghost t: Trail, ghost busy: set<Cell>)
      requires nsSize == ewSize == 0
      requires Square() && Picture(v, start, Contents(), drawn, busy) && busy <= drawn.Keys && c in busy
      requires drawn[c] == t && Walkable(v, start, t) && room == EndRoom(v, start, t) && InWindow(v, c)
      requires door < Cut(v, room) && OpenExit(v, room, door)
      requires SearchedTo(v, Contents(), drawn, c, room, door)
      modifies this`drawn, grid
      ensures Picture(v, start, Contents(), drawn, busy)
      ensures Grows(v, old(Contents()), old(drawn), Contents(), drawn)
      ensures SearchedTo(v, Contents(), drawn, c, room, door + 1)
      decreases AllCells() - drawn.Keys, 2
    {
      ghost var g0, drawn0 := Contents(), drawn;
      assert TrailOk(v, start, drawn, c, t);
      DoorsAreBetweenRooms(v, c, door);
      if !v.worldmap {
        DrawDoor(v, c, door, start, busy);
      }
      ghost var g1 := Contents();
      var prospectX, prospectY := EntryPosition(v, room, door, nsSize, ewSize, 0, 0);
      DrawBehind(v, room, c, door, prospectX, prospectY, start, t, busy);
      GrowsOn(v, g0, drawn0, g1, drawn0, Contents(), drawn);
      SearchedFurther(v, g0, drawn0, Contents(), drawn, c, room, door);
    }

    /** Draws the room behind an exit, unless something is drawn in its place already. */
    method DrawBehind(v: View, room: nat, c: Cell, door: Dir, prospectX: int, prospectY: int,
                      ghost start: nat, ghost t: Trail, ghost busy: set<Cell>)
      requires prospectX == prospectY == 0
      requires Square() && Picture(v, start, Contents(), drawn, busy) && busy <= drawn.Keys && c in busy
      requires drawn[c] == t && room == EndRoom(v, start, t) && InWindow(v, c)
      requires door < Cut(v, room) && OpenExit(v, room, door)
      modifies this`drawn, grid
      ensures Picture(v, start, Contents(), drawn, busy)
      ensures Grows(v, old(Contents()), old(drawn), Contents(), drawn)
      ensures Neighbour(v, c, door) in drawn
      decreases AllCells() - drawn.Keys, 1
    {
      var n := Neighbour(v, c, door);
      assert TrailOk(v, start, drawn, c, t);
      NextTrail(v, start, drawn, c, door);
      EmptyIffNotDrawn(v, start, Contents(), drawn, busy, n);
      if grid[n.x, n.y] == SECT_EMPTY {
        MapArea(v, Target(v, room, door), n.x, n.y, prospectX, prospectY, start, Then(t, door), busy);
      }
    }

    /** Fills the grid with blanks. */
    method BlankMap(v: View)
      requires Square()
      modifies grid
      ensures forall c :: Inside(c) ==> Contents()[c] == Blank(v, c.y)
    {
      for x := 0 to MAX_MAP
        invariant forall i, j :: 0 <= i < x && 0 <= j < MAX_MAP ==> grid[i, j] == Blank(v, j)
      {
        for y := 0 to MAX_MAP
          invariant forall i, j :: 0 <= i < x && 0 <= j < MAX_MAP ==> grid[i, j] == Blank(v, j)
          invariant forall j :: 0 <= j < y ==> grid[x, j] == Blank(v, j)
        {
          grid[x, y] := if !(y % 2 != 0) && !v.worldmap then DOOR_NONE else SECT_EMPTY;
        }
      }
    }

    /** The drawing that every map command makes: blank, search from the target room, mark the centre. */
    method DrawMap(v: View, target: nat)
      requires Square() && ViewOk(v) && target < |v.world|
      modifies this`drawn, grid
      ensures Drawing(v, target, Contents(), drawn)
    {
      BlankMap(v);
      drawn := map[];
      BlankPicture(v, target, Contents());
      var nsSize, ewSize := 0, 0;
      MapArea(v, target, CENTRE, CENTRE, nsSize / 2, ewSize / 2, target, Start, {});
      ghost var g := Contents();
      assert CellOk(v, target, g, drawn, {}, Cell(CENTRE, CENTRE));
      Put(Cell(CENTRE, CENTRE), SECT_HERE);
      assert Contents()[Cell(CENTRE, CENTRE) := g[Cell(CENTRE, CENTRE)]] == g;
    }
  }

  // ----- What a finished drawing says -----

  /** A finished drawing: nothing is being searched any more, and the centre shows the character. */
  ghost predicate Drawing(v: View, start: nat, g: Canvas, drawn: map<Cell, Trail>) {
    var centre := Cell(CENTRE, CENTRE);
    && centre in drawn && drawn[centre] == Start
    && centre in g && g[centre] == SECT_HERE
    && Picture(v, start, g[centre := Shown(v, start, centre)], drawn, {})
  }

  /** A walk the search can make: it leaves only rooms of the window, through exits it does not cut off. */
  ghost predicate FreeWalk(v: View, start: nat, t: Trail) {
    match t
    case Start => true
    case Then(p, d) =>
      && FreeWalk(v, start, p)
      && InWindow(v, EndCell(v, p))
      && OpenExit(v, EndRoom(v, start, p), d) && d < Cut(v, EndRoom(v, start, p))
  }

  /** Walks that end on the same cell end in the same room. */
  ghost predicate LaidOutFlat(v: View, start: nat) {
    forall t, t' :: FreeWalk(v, start, t) && FreeWalk(v, start, t') && EndCell(v, t) == EndCell(v, t') ==>
      EndRoom(v, start, t) == EndRoom(v, start, t')
  }

  lemma {:induction false} DrawnTrailsAreFree(v: View, start: nat, drawn: map<Cell, Trail>, c: Cell)
    requires TrailsOk(v, start, drawn) && c in drawn
    ensures FreeWalk(v, start, drawn[c])
    decreases drawn[c]
  {
    assert TrailOk(v, start, drawn, c, drawn[c]);
    if drawn[c].Then? {
      DrawnTrailsAreFree(v, start, drawn, EndCell(v, drawn[c].before));
    }
  }

  /** Soundness: a room cell that is not empty shows the room at the end of a walk whose offsets add up to
      the cell's place, every step of which could be followed. */
  lemma MapIsSound(v: View, start: nat, g: Canvas, drawn: map<Cell, Trail>, c: Cell)
    requires Drawing(v, start, g, drawn) && RoomCell(v, c) && g[c] != SECT_EMPTY
    ensures exists t ::
              && FreeWalk(v, start, t) && Walkable(v, start, t) && EndCell(v, t) == c
              && g[c] == if c == Cell(CENTRE, CENTRE) then SECT_HERE else Shown(v, EndRoom(v, start, t), c)
  {
    var centre := Cell(CENTRE, CENTRE);
    var g' := g[centre := Shown(v, start, centre)];
    EmptyIffNotDrawn(v, start, g', drawn, {}, c);
    assert c in drawn;
    DrawnTrailsAreFree(v, start, drawn, c);
    assert TrailOk(v, start, drawn, c, drawn[c]) && CellOk(v, start, g', drawn, {}, c);
  }

  /** Completeness: from a drawn cell of the window, every open exit below the first maze exit leads to a cell
      that is not empty, through a door that is drawn. */
  lemma MapIsComplete(v: View, start: nat, g: Canvas, drawn: map<Cell, Trail>, c: Cell, d: Dir)
    requires Drawing(v, start, g, drawn) && c in drawn && InWindow(v, c)
    requires var room := EndRoom(v, start, drawn[c]); d < Cut(v, room) && OpenExit(v, room, d)
    ensures RoomCell(v, Neighbour(v, c, d)) && g[Neighbour(v, c, d)] != SECT_EMPTY
    ensures !v.worldmap ==> Marked(v, g, DoorCell(c, d))
  {
    var centre := Cell(CENTRE, CENTRE);
    var g' := g[centre := Shown(v, start, centre)];
    assert TrailOk(v, start, drawn, c, drawn[c]) && CellOk(v, start, g', drawn, {}, c);
    assert Searched(v, g', drawn, c, d);
    DoorsAreBetweenRooms(v, c, d);
    EmptyIffNotDrawn(v, start, g', drawn, {}, Neighbour(v, c, d));
  }

  lemma {:induction false} FreeWalksAreDrawn(v: View, start: nat, g: Canvas, drawn: map<Cell, Trail>, t: Trail)
    requires Drawing(v, start, g, drawn) && LaidOutFlat(v, start) && FreeWalk(v, start, t)
    ensures EndCell(v, t) in drawn && EndRoom(v, start, drawn[EndCell(v, t)]) == EndRoom(v, start, t)
  {
    if t.Then? {
      FreeWalksAreDrawn(v, start, g, drawn, t.before);
      var centre := Cell(CENTRE, CENTRE);
      var p := EndCell(v, t.before);
      var g' := g[centre := Shown(v, start, centre)];
      assert TrailOk(v, start, drawn, p, drawn[p]) && CellOk(v, start, g', drawn, {}, p);
      assert Searched(v, g', drawn, p, t.dir);
      var c := EndCell(v, t);
      DrawnTrailsAreFree(v, start, drawn, c);
      assert TrailOk(v, start, drawn, c, drawn[c]);
    }
  }

  /** Where the world can be laid out flat, the drawing is exactly the region that can be walked: a room cell
      is not empty if and only if some free walk ends there, and then it shows the room where it ends. */
  lemma MapShowsTheRegion(v: View, start: nat, g: Canvas, drawn: map<Cell, Trail>, c: Cell)
    requires Drawing(v, start, g, drawn) && LaidOutFlat(v, start) && RoomCell(v, c)
    ensures g[c] != SECT_EMPTY <==> exists t :: FreeWalk(v, start, t) && EndCell(v, t) == c
    ensures forall t :: FreeWalk(v, start, t) && EndCell(v, t) == c && c != Cell(CENTRE, CENTRE) ==>
              g[c] == Shown(v, EndRoom(v, start, t), c)
  {
    var centre := Cell(CENTRE, CENTRE);
    var g' := g[centre := Shown(v, start, centre)];
    if g[c] != SECT_EMPTY {
      MapIsSound(v, start, g, drawn, c);
    }
    forall t | FreeWalk(v, start, t) && EndCell(v, t) == c
      ensures g[c] != SECT_EMPTY
      ensures c != centre ==> g[c] == Shown(v, EndRoom(v, start, t), c)
    {
      FreeWalksAreDrawn(v, start, g, drawn, t);
      EmptyIffNotDrawn(v, start, g', drawn, {}, c);
      assert CellOk(v, start, g', drawn, {}, c);
    }
  }

  lemma DoorIsMarked(v: View, start: nat, g: Canvas, drawn: map<Cell, Trail>, e: Cell, d: Dir)
    requires Drawing(v, start, g, drawn) && !v.worldmap && HasDoor(v, start, drawn, e, d)
    ensures Marked(v, g, e)
  {
    var c := Cell(e.x - DoorOffset(d).0, e.y - DoorOffset(d).1);
    assert DoorCell(c, d) == e;
    MapIsComplete(v, start, g, drawn, c, d);
  }

  /** Doors: a cell between rooms is marked if and only if an exit of a drawn room of the window passes
      through it, and each stroke of the mark is the mark of such an exit. */
  lemma DoorsAreExact(v: View, start: nat, g: Canvas, drawn: map<Cell, Trail>, e: Cell)
    requires Drawing(v, start, g, drawn) && !v.worldmap && Inside(e) && !RoomCell(v, e)
    ensures Marked(v, g, e) <==> exists d: Dir :: HasDoor(v, start, drawn, e, d)
    ensures Marked(v, g, e) ==> Justified(MarksAt(v, start, drawn, e), g[e])
  {
    var centre := Cell(CENTRE, CENTRE);
    var g' := g[centre := Shown(v, start, centre)];
    assert CellOk(v, start, g', drawn, {}, e);
    assert e in drawn ==> TrailOk(v, start, drawn, e, drawn[e]);
    if Marked(v, g, e) {
      var m :| m in MarksAt(v, start, drawn, e);
    }
    forall d: Dir | HasDoor(v, start, drawn, e, d)
      ensures Marked(v, g, e)
    {
      DoorIsMarked(v, start, g, drawn, e, d);
    }
  }

  /** Walks from a room whose only exit leads to a room that has none but the reverse one. */
  ghost predicate OnlyExit(v: View, start: nat, d: Dir, e: Exit) {
    && start < |v.world| && e.toRoom < |v.world| && e.toRoom != start && WorldOk(v.world)
    && v.world[start].exits[d] == Some(e)
    && (forall k: Dir :: k != d ==> v.world[start].exits[k].None?)
    && (forall k: Dir :: k != REV_DIR[d] ==> v.world[e.toRoom].exits[k].None?)
  }

  /** The table of the opposite directions. */
  const REV_DIR: seq<Dir> := [SOUTH, WEST, NORTH, EAST, DOWN, UP, SOUTHEAST, SOUTHWEST, NORTHWEST, NORTHEAST]

  /** The exit can be followed, in terms of the fields of the two rooms: it leads somewhere, is open and visible, and
      the room behind it has no reverse exit that leads elsewhere. */
  ghost predicate Passable(v: View, start: nat, d: Dir, e: Exit)
    requires OnlyExit(v, start, d, e)
  {
    && e.toRoom != 0 && e.toRoom != NOWHERE && !e.closed && (e.hidden ==> v.holylight)
    && var back := v.world[e.toRoom].exits[REV_DIR[d]];
       back.Some? ==> back.value.toRoom == start
  }

  lemma StepsOut(v: View, start: nat, d: Dir, e: Exit, k: Dir)
    requires OnlyExit(v, start, d, e) && OpenExit(v, start, k) && k < Cut(v, start)
    ensures k == d && Passable(v, start, d, e) && Target(v, start, k) == e.toRoom
  {
    assert REV_DIR[d] == RevDir(d) && v.world[start].exits[k].Some?;
  }

  lemma StepsBack(v: View, start: nat, d: Dir, e: Exit, k: Dir)
    requires OnlyExit(v, start, d, e) && Passable(v, start, d, e) && OpenExit(v, e.toRoom, k)
    ensures k == RevDir(d) && Target(v, e.toRoom, k) == start
  {
    assert REV_DIR[d] == RevDir(d) && v.world[e.toRoom].exits[k].Some?;
  }

  /** In such a world a walk is at one of two places, and only at the first one if the exit cannot be followed. */
  lemma {:induction false} OneExitWalks(v: View, start: nat, d: Dir, e: Exit, t: Trail)
    requires OnlyExit(v, start, d, e) && FreeWalk(v, start, t)
    ensures || (EndRoom(v, start, t) == start && EndCell(v, t) == Cell(CENTRE, CENTRE))
            || (Passable(v, start, d, e)
                && EndRoom(v, start, t) == e.toRoom
                && EndCell(v, t) == Neighbour(v, Cell(CENTRE, CENTRE), d))
  {
    if t.Then? {
      OneExitWalks(v, start, d, e, t.before);
      if EndRoom(v, start, t.before) == start {
        StepsOut(v, start, d, e, t.dir);
      } else {
        StepsBack(v, start, d, e, t.dir);
        Compass(v, Cell(CENTRE, CENTRE), d);
      }
    }
  }

  lemma OneExitIsCut(v: View, start: nat, d: Dir, e: Exit)
    requires OnlyExit(v, start, d, e) && Passable(v, start, d, e)
    ensures OpenExit(v, start, d) && d < Cut(v, start)
  {
    assert REV_DIR[d] == RevDir(d) && Cut(v, start) <= MAX_MAP_DIR;
  }

  /** The room behind the exit is no maze. */
  lemma OneExitIsPlain(v: View, start: nat, d: Dir, e: Exit, c: Cell)
    requires OnlyExit(v, start, d, e) && Passable(v, start, d, e)
    ensures Shown(v, e.toRoom, c) == if e.toRoom == v.here then SECT_HERE else v.world[e.toRoom].sector
  {
    assert REV_DIR[d] == RevDir(d) && RevDir(RevDir(d)) == d && Cut(v, e.toRoom) <= MAX_MAP_DIR;
  }

  /** From a room with one exit the next room is drawn, as it is, if and only if the exit is open, visible and no maze
      exit. */
  lemma OneExit(v: View, g: Canvas, drawn: map<Cell, Trail>, start: nat, d: Dir, e: Exit)
    requires Drawing(v, start, g, drawn) && OnlyExit(v, start, d, e) && d != UP && d != DOWN
    requires v.min <= CENTRE <= v.max
    ensures var n := Neighbour(v, Cell(CENTRE, CENTRE), d);
            && n in g
            && g[n] == if !Passable(v, start, d, e) then SECT_EMPTY
                       else if e.toRoom == v.here then SECT_HERE
                       else v.world[e.toRoom].sector
  {
    var centre := Cell(CENTRE, CENTRE);
    var n := Neighbour(v, centre, d);
    Compass(v, centre, d);
    DoorsAreBetweenRooms(v, centre, d);
    if Passable(v, start, d, e) {
      OneExitIsCut(v, start, d, e);
      MapIsComplete(v, start, g, drawn, centre, d);
    }
    if g[n] != SECT_EMPTY {
      MapIsSound(v, start, g, drawn, n);
      var t :| FreeWalk(v, start, t) && EndCell(v, t) == n && g[n] == Shown(v, EndRoom(v, start, t), n);
      OneExitWalks(v, start, d, e, t);
      OneExitIsPlain(v, start, d, e, n);
    }
  }

  /** The renderers index door_info by NUM_DOOR_TYPES + value for negative values and map_info by the value
      otherwise; these are the values of the entries of door_info in order. */
  const DOOR_INFO: seq<int> := [-13, -12, -11, -10, -9, -8, -7, -6, -5, -4, -3, -2, -1]

  /** A door mark, a sector, or one of the three special sectors. */
  predicate LegalValue(w: int) {
    DOOR_NONE <= w < NUM_ROOM_SECTORS || SECT_EMPTY <= w <= SECT_HERE
  }

  lemma ValuesAreLegal(v: View, start: nat, g: Canvas, drawn: map<Cell, Trail>, c: Cell)
    requires Picture(v, start, g, drawn, {}) && Inside(c)
    ensures LegalValue(g[c]) && (v.worldmap ==> g[c] >= 0)
  {
    assert CellOk(v, start, g, drawn, {}, c);
    if c in drawn {
      assert TrailOk(v, start, drawn, c, drawn[c]);
      RoomExists(v, start, drawn[c]);
    } else {
      MarksAreDoors(v, start, drawn, c);
    }
  }

  /** Every value a renderer meets has its own entry: door marks find the entry of that mark, and the other
      values are a sector or one of the three special sectors, never the reserved entry.  A world map, whose
      renderer does not look at the sign, holds no door mark. */
  lemma ValuesHaveEntries(v: View, start: nat, g: Canvas, drawn: map<Cell, Trail>, c: Cell)
    requires Drawing(v, start, g, drawn) && Inside(c)
    ensures g[c] < 0 ==> 0 <= NUM_DOOR_TYPES + g[c] < |DOOR_INFO| && DOOR_INFO[NUM_DOOR_TYPES + g[c]] == g[c]
    ensures g[c] >= 0 ==> g[c] <= SECT_HERE && g[c] != NUM_ROOM_SECTORS
    ensures v.worldmap ==> g[c] >= 0
  {
    var centre := Cell(CENTRE, CENTRE);
    ValuesAreLegal(v, start, g[centre := Shown(v, start, centre)], drawn, c);
  }

  lemma MarksAreDoors(v: View, start: nat, drawn: map<Cell, Trail>, e: Cell)
    ensures forall m :: m in MarksAt(v, start, drawn, e) ==> DOOR_DIAGNW <= m <= DOOR_NS
  {
  }

  // ----- The windows of the map commands -----

  function Abs(x: int): nat {
    if x < 0 then -x else x
  }

  /** The size that the map command uses for a requested size. */
  function ClampedSize(size: int): (r: int)
    ensures 1 <= r <= MAX_MAP_SIZE
    ensures (r <= Abs(size) || size == 0) && (Abs(size) <= r || r == MAX_MAP_SIZE)
  {
    var s := Abs(size);
    if s < 1 then 1 else if s > MAX_MAP_SIZE then MAX_MAP_SIZE else s
  }

  /** Every cell the search looks at from a room of the window is on the grid. */
  ghost predicate StaysInside(v: View) {
    forall c, d: Dir :: RoomCell(v, c) && InWindow(v, c) ==>
      Inside(Neighbour(v, c, d)) && (v.worldmap || Inside(DoorCell(c, d)))
  }

  /** The window of the map command reaches as far as the size, on a world map twice as far. */
  lemma CommandWindowFits(v: View, size: int)
    requires WorldOk(v.world)
    requires var r := ClampedSize(size) * if v.worldmap then 2 else 1; v.min == CENTRE - r && v.max == CENTRE + r
    ensures ViewOk(v) && StaysInside(v)
  {
    forall c, d: Dir | RoomCell(v, c) && InWindow(v, c)
      ensures Inside(Neighbour(v, c, d)) && (v.worldmap || Inside(DoorCell(c, d)))
    {
      if v.worldmap {
      } else {
        DoorsAreBetweenRooms(v, c, d);
      }
    }
  }

  /** Both minimaps reach twice as far as the size.  The configured minimap size may be 12, where the search of a room
      map leaves the grid: a minimap search stays on the grid if and only if the size is at most 12 on a world map and
      at most 11 otherwise. */
  lemma MinimapWindowFits(v: View, size: nat)
    requires WorldOk(v.world) && size >= 1
    requires v.min == CENTRE - 2 * size && v.max == CENTRE + 2 * size
    ensures StaysInside(v) <==> size <= if v.worldmap then 12 else 11
    ensures StaysInside(v) <==> ViewOk(v)
  {
    if ViewOk(v) {
      forall c, d: Dir | RoomCell(v, c) && InWindow(v, c)
        ensures Inside(Neighbour(v, c, d)) && (v.worldmap || Inside(DoorCell(c, d)))
      {
        if v.worldmap {
        } else {
          DoorsAreBetweenRooms(v, c, d);
        }
      }
    } else {
      var edge := if v.worldmap then Cell(0, CENTRE) else Cell(1, CENTRE);
      assert RoomCell(v, edge) && InWindow(v, edge) && !Inside(Neighbour(v, edge, NORTH));
    }
  }
}
