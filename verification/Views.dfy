// Which chunks the client is sent: the square around the player, less what it has already got.

module Views {
  import opened Common

  const VIEW_RADIUS := 4

  type Chunk = (int, int)

  /** `(x / 16.0).floor() as i32`: the cast saturates. */
  function ChunkCoord(x: real): int {
    var c := (x / 16.0).Floor;
    if c < I32_MIN then I32_MIN else if c > I32_MAX then I32_MAX else c
  }

  /** Chunk `c` is the sixteen blocks from `16 c` on; positions beyond the last chunks fall into those. */
  lemma ChunkCoordExactly(x: real, c: int)
    ensures -0x8000_0000 < c < 0x7FFF_FFFF ==> (ChunkCoord(x) == c <==> 16.0 * c as real <= x < 16.0 * (c + 1) as real)
    ensures ChunkCoord(x) == -0x8000_0000 <==> x < 16.0 * -2147483647.0
    ensures ChunkCoord(x) == 0x7FFF_FFFF <==> 16.0 * 2147483647.0 <= x
    ensures -0x8000_0000 <= ChunkCoord(x) <= 0x7FFF_FFFF
  {
    var q := x / 16.0;
    assert x == 16.0 * q;
    assert q.Floor as real <= q < q.Floor as real + 1.0;
  }

  /** The chunks of a rectangle with its corner at `x`, `z`. */
  ghost function Rect(x: int, z: int, w: nat, h: nat): set<Chunk> {
    set i, k | x <= i < x + w && z <= k < z + h :: (i, k)
  }

  ghost function Square(c: Chunk): set<Chunk> {
    Rect(c.0 - VIEW_RADIUS, c.1 - VIEW_RADIUS, 9, 9)
  }

  /** The square in the order it is listed: column by column. */
  function Listed(c: Chunk): seq<Chunk> {
    seq(81, k requires 0 <= k < 81 => (c.0 - VIEW_RADIUS + k / 9, c.1 - VIEW_RADIUS + k % 9))
  }

  /** No coordinate of the square overflows an i32. */
  predicate Viewable(c: Chunk) {
    I32_MIN <= c.0 - VIEW_RADIUS && c.0 + VIEW_RADIUS <= I32_MAX && I32_MIN <= c.1 - VIEW_RADIUS && c.1 + VIEW_RADIUS <= I32_MAX
  }

  ghost function Elements(cs: seq<Chunk>): set<Chunk> {
    set c | c in cs
  }

  lemma ListedIsSquare(c: Chunk)
    ensures Distinct(Listed(c)) && Elements(Listed(c)) == Square(c)
  {
    var cs := Listed(c);
    forall i, j | 0 <= i < j < |cs|
      ensures cs[i] != cs[j]
    {
      assert i == 9 * (i / 9) + i % 9 && j == 9 * (j / 9) + j % 9;
    }
    forall p | p in Square(c)
      ensures p in cs
    {
      var k := 9 * (p.0 - c.0 + VIEW_RADIUS) + (p.1 - c.1 + VIEW_RADIUS);
      assert 0 <= k < 81 && k / 9 == p.0 - c.0 + VIEW_RADIUS && k % 9 == p.1 - c.1 + VIEW_RADIUS;
      assert cs[k] == p;
    }
  }

  /** Chunk coordinate `i` is at most four chunks from that of `x`. */
  predicate Near(i: int, x: real) {
    16.0 * (i - 4) as real <= x < 16.0 * (i + 5) as real
  }

  /** Five chunks from either end of what can be numbered, so that four more fit. */
  predicate Inland(x: real) {
    16.0 * -2147483644.0 <= x < 16.0 * 2147483644.0
  }

  /** What is listed for a player, in terms of where the player is. */
  lemma SeenFrom(x: real, z: real)
    ensures var here := (ChunkCoord(x), ChunkCoord(z));
            && (Viewable(here) <==> Inland(x) && Inland(z))
            && (Viewable(here) ==> forall i, k :: (i, k) in Listed(here) <==> Near(i, x) && Near(k, z))
  {
    var cx, cz := ChunkCoord(x), ChunkCoord(z);
    NearExactly(x);
    NearExactly(z);
    ListedIsSquare((cx, cz));
    hide ChunkCoord, Listed, Near, Inland;
    if Viewable((cx, cz)) {
      forall i, k
        ensures (i, k) in Listed((cx, cz)) <==> Near(i, x) && Near(k, z)
      {
        assert (i, k) in Listed((cx, cz)) <==> (i, k) in Square((cx, cz)) by {
          assert (i, k) in Listed((cx, cz)) <==> (i, k) in Elements(Listed((cx, cz)));
        }
      }
    }
  }

  lemma NearExactly(x: real)
    ensures var c := ChunkCoord(x);
            && (-0x7FFF_FFFC <= c <= 0x7FFF_FFFB <==> Inland(x))
            && (-0x7FFF_FFFC <= c <= 0x7FFF_FFFB ==> forall i :: Near(i, x) <==> c - 4 <= i <= c + 4)
  {
    var c := ChunkCoord(x);
    ChunkCoordExactly(x, c);
    hide ChunkCoord;
  }

  // ---- the server's view of its chunks ----

  /** What is remembered, and every chunk sent so far in order. */
  datatype View = View(loaded: set<Chunk>, last: Chunk, sent: seq<Chunk>)

  /** `visible_chunks().filter(|c| !loaded.contains(c))` */
  function Missing(cs: seq<Chunk>, loaded: set<Chunk>): seq<Chunk> {
    if cs == [] then []
    else (if cs[0] in loaded then [] else [cs[0]]) + Missing(cs[1..], loaded)
  }

  function AddAll(loaded: set<Chunk>, cs: seq<Chunk>): set<Chunk>
    decreases |cs|
  {
    if cs == [] then loaded else AddAll(loaded + {cs[0]}, cs[1..])
  }

  /** `send_chunks` */
  function Send(v: View, cs: seq<Chunk>, here: Chunk): View {
    if cs == [] then v else View(AddAll(v.loaded, cs), here, v.sent + cs)
  }

  /** What the play loop does after each read, with the player in chunk `here`. */
  function Check(v: View, here: Chunk): View {
    if here == v.last then v else Send(v, Missing(Listed(here), v.loaded), here)
  }

  /**
   * The view when the play loop starts. Without captured templates the first square is sent by the initial burst and
   * then once more when play starts.
   */
  function Start(here: Chunk, templates: bool): View {
    var v := View({}, here, []);
    Send(if templates then v else Send(v, Listed(here), here), Listed(here), here)
  }

  function Run(v: View, path: seq<Chunk>): View
    decreases |path|
  {
    if path == [] then v else Run(Check(v, path[0]), path[1..])
  }

  lemma MissingStep(unsent: seq<Chunk>, cs: seq<Chunk>, i: nat, loaded: set<Chunk>)
    requires i < |cs|
    ensures unsent + Missing(cs[i..], loaded)
         == (if cs[i] in loaded then unsent else unsent + [cs[i]]) + Missing(cs[i + 1..], loaded)
  {
    var more := Missing(cs[i + 1..], loaded);
    assert cs[i..][0] == cs[i] && cs[i..][1..] == cs[i + 1..];
    assert unsent + ([cs[i]] + more) == unsent + [cs[i]] + more && [] + more == more;
  }

  // ---- the operations on the server state ----

  class ChunkState {
    var playerX: real
    var playerZ: real
    var loadedChunks: set<Chunk>
    var lastChunk: Chunk
    var sentChunks: seq<Chunk>

    ghost function Abs(): View
      reads this
    {
      View(loadedChunks, lastChunk, sentChunks)
    }

    function PlayerChunk(): Chunk
      reads this
    {
      (ChunkCoord(playerX), ChunkCoord(playerZ))
    }

    constructor ()
      ensures Abs() == View({}, PlayerChunk(), []) && playerX == 0.0 && playerZ == 0.0
    {
      playerX, playerZ := 0.0, 0.0;
      loadedChunks, sentChunks := {}, [];
      lastChunk := (ChunkCoord(0.0), ChunkCoord(0.0));
    }

    /** Every chunk at most four from the player's, each once; nothing if a coordinate overflows. */
    method VisibleChunks() returns (r: Option<seq<Chunk>>)
      ensures r == if Viewable(PlayerChunk()) then Some(Listed(PlayerChunk())) else None
      ensures r.Some? <==> Inland(playerX) && Inland(playerZ)
      ensures r.Some? ==> Distinct(r.value) && |r.value| == 81
      ensures r.Some? ==> forall i, k :: (i, k) in r.value <==> Near(i, playerX) && Near(k, playerZ)
    {
      SeenFrom(playerX, playerZ);
      ListedIsSquare(PlayerChunk());
      hide ChunkCoord, Near, Inland;
      var (cx, cz) := PlayerChunk();
      if !Viewable((cx, cz)) {
        return None;
      }
      var chunks := [];
      ghost var all := Listed((cx, cz));
      for dx := -VIEW_RADIUS to VIEW_RADIUS + 1
        invariant chunks == all[..9 * (dx + VIEW_RADIUS)]
      {
        for dz := -VIEW_RADIUS to VIEW_RADIUS + 1
          invariant chunks == all[..9 * (dx + VIEW_RADIUS) + dz + VIEW_RADIUS]
        {
          ghost var k := 9 * (dx + VIEW_RADIUS) + dz + VIEW_RADIUS;
          assert k / 9 == dx + VIEW_RADIUS && k % 9 == dz + VIEW_RADIUS;
          assert all[k] == (cx + dx, cz + dz) && all[..k + 1] == all[..k] + [all[k]];
          chunks := chunks + [(cx + dx, cz + dz)];
        }
      }
      assert all[..81] == all;
      return Some(chunks);
    }

    method NewVisibleChunks() returns (r: Option<seq<Chunk>>)
      ensures r == if Viewable(PlayerChunk()) then Some(Missing(Listed(PlayerChunk()), loadedChunks)) else None
    {
      var visible := VisibleChunks();
      if visible.None? {
        return None;
      }
      var cs := visible.value;
      var unsent := [];
      var i := 0;
      assert cs[0..] == cs;
      while i < |cs|
        invariant 0 <= i <= |cs|
        invariant unsent + Missing(cs[i..], loadedChunks) == Missing(cs, loadedChunks)
      {
        MissingStep(unsent, cs, i, loadedChunks);
        hide Missing;
        if cs[i] !in loadedChunks {
          unsent := unsent + [cs[i]];
        }
        i := i + 1;
      }
      assert cs[|cs|..] == [] && unsent + [] == unsent;
      return Some(unsent);
    }

    method MarkChunksLoaded(cs: seq<Chunk>)
      modifies this`loadedChunks, this`lastChunk
      ensures loadedChunks == AddAll(old(loadedChunks), cs) && lastChunk == PlayerChunk()
    {
      var i := 0;
      assert cs[0..] == cs;
      while i < |cs|
        invariant 0 <= i <= |cs|
        invariant AddAll(loadedChunks, cs[i..]) == AddAll(old(loadedChunks), cs)
      {
        assert cs[i..][0] == cs[i] && cs[i..][1..] == cs[i + 1..];
        loadedChunks := loadedChunks + {cs[i]};
        i := i + 1;
      }
      lastChunk := PlayerChunk();
    }

    /** `send_chunks` */
    method SendChunks(cs: seq<Chunk>)
      modifies this`loadedChunks, this`lastChunk, this`sentChunks
      ensures Abs() == Send(old(Abs()), cs, PlayerChunk())
    {
      if cs == [] {
        return;
      }
      sentChunks := sentChunks + cs;
      MarkChunksLoaded(cs);
    }

    /** The check after each read; false if it panics. */
    method CheckChunks() returns (ok: bool)
      modifies this`loadedChunks, this`lastChunk, this`sentChunks
      ensures ok == (PlayerChunk() == old(lastChunk) || Viewable(PlayerChunk()))
      ensures Abs() == if ok then Check(old(Abs()), PlayerChunk()) else old(Abs())
    {
      if PlayerChunk() != lastChunk {
        var unsent := NewVisibleChunks();
        if unsent.None? {
          return false;
        }
        if unsent.value != [] {
          SendChunks(unsent.value);
        }
      }
      return true;
    }

    /** The initial loads of `run_play_phase` and `finish_play_start`; false if they panic. */
    method StartPlay(templates: bool) returns (ok: bool)
      requires Abs() == View({}, PlayerChunk(), [])
      modifies this`loadedChunks, this`lastChunk, this`sentChunks
      ensures ok == Viewable(PlayerChunk())
      ensures ok ==> Abs() == Start(PlayerChunk(), templates)
    {
      if !templates {
        var burst := VisibleChunks();
        if burst.None? {
          return false;
        }
        SendChunks(burst.value);
      }
      var initial := VisibleChunks();
      if initial.None? {
        return false;
      }
      SendChunks(initial.value);
      return true;
    }
  }

  // ---- whole runs ----

  lemma {:induction false} AddAllElements(loaded: set<Chunk>, cs: seq<Chunk>)
    ensures AddAll(loaded, cs) == loaded + Elements(cs)
    decreases |cs|
  {
    if cs != [] {
      AddAllElements(loaded + {cs[0]}, cs[1..]);
      assert Elements(cs) == {cs[0]} + Elements(cs[1..]);
    }
  }

  lemma {:induction false} MissingElements(cs: seq<Chunk>, loaded: set<Chunk>)
    requires Distinct(cs)
    ensures Distinct(Missing(cs, loaded)) && Elements(Missing(cs, loaded)) == Elements(cs) - loaded
  {
    if cs != [] {
      MissingElements(cs[1..], loaded);
      assert Elements(cs) == {cs[0]} + Elements(cs[1..]);
      var rest := Missing(cs[1..], loaded);
      assert cs[0] !in Elements(rest);
      assert Elements([cs[0]] + rest) == {cs[0]} + Elements(rest);
      assert forall c <- rest :: c in Elements(rest);
    }
  }

  /** How often a chunk has been sent. */
  ghost function Times(cs: seq<Chunk>, c: Chunk): nat {
    multiset(cs)[c]
  }

  lemma {:induction false} TimesDistinct(cs: seq<Chunk>, c: Chunk)
    requires Distinct(cs)
    ensures Times(cs, c) == if c in Elements(cs) then 1 else 0
  {
    if cs != [] {
      TimesDistinct(cs[1..], c);
      assert cs == [cs[0]] + cs[1..];
      assert cs[0] !in cs[1..];
    }
  }

  /** The union of the squares around the places where a check was made. */
  ghost function Seen(path: seq<Chunk>): set<Chunk> {
    if path == [] then {} else Square(path[0]) + Seen(path[1..])
  }

  /** What a view with these checks behind it looks like. */
  ghost predicate Faithful(v: View, seen: set<Chunk>, twice: set<Chunk>) {
    && v.loaded == seen && Square(v.last) <= v.loaded
    && forall c :: Times(v.sent, c) == (if c in seen then 1 else 0) + (if c in twice then 1 else 0)
  }

  lemma TimesAppend(a: seq<Chunk>, b: seq<Chunk>, c: Chunk)
    ensures Times(a + b, c) == Times(a, c) + Times(b, c)
  {
  }

  lemma CheckFaithful(v: View, here: Chunk, seen: set<Chunk>, twice: set<Chunk>)
    requires Faithful(v, seen, twice)
    ensures Faithful(Check(v, here), seen + Square(here), twice) && Square(here) <= Check(v, here).loaded
  {
    hide Square, Listed, Times;
    if here != v.last {
      var cs := Missing(Listed(here), v.loaded);
      ListedIsSquare(here);
      MissingElements(Listed(here), v.loaded);
      AddAllElements(v.loaded, cs);
      forall c
        ensures Times(v.sent + cs, c) == Times(v.sent, c) + (if c in Square(here) && c !in v.loaded then 1 else 0)
      {
        TimesAppend(v.sent, cs, c);
        TimesDistinct(cs, c);
      }
      if cs == [] { assert v.sent + cs == v.sent; }
    } else {
      assert seen + Square(here) == seen;
    }
  }

  /** The last chunk remembered is the one checked, unless everything around it had been loaded: then it stays the old one. */
  lemma LastExactly(v: View, here: Chunk)
    ensures Check(v, here).last == if Square(here) <= v.loaded then v.last else here
  {
    hide Square, Listed;
    ListedIsSquare(here);
    MissingElements(Listed(here), v.loaded);
    var cs := Missing(Listed(here), v.loaded);
    if cs == [] {
      assert Square(here) - v.loaded == Elements(cs) == {};
      assert forall c <- Square(here) :: c in v.loaded || c in Square(here) - v.loaded;
    } else {
      assert cs[0] in Elements(cs);
    }
  }

  lemma {:induction false} RunFaithful(v: View, path: seq<Chunk>, seen: set<Chunk>, twice: set<Chunk>)
    requires Faithful(v, seen, twice)
    ensures Faithful(Run(v, path), seen + Seen(path), twice)
    ensures path != [] ==> Square(path[|path| - 1]) <= Run(v, path).loaded
    decreases |path|
  {
    hide Square, Faithful, Check;
    if path == [] {
      assert seen + Seen(path) == seen;
    } else {
      CheckFaithful(v, path[0], seen, twice);
      var seen' := seen + Square(path[0]);
      RunFaithful(Check(v, path[0]), path[1..], seen', twice);
      assert seen' + Seen(path[1..]) == seen + Seen(path);
      if |path| == 1 { assert path[1..] == []; }
    }
  }

  lemma FirstSend(v: View, here: Chunk)
    requires v.loaded <= Square(here)
    ensures Send(v, Listed(here), here) == View(Square(here), here, v.sent + Listed(here))
  {
    hide Square;
    ListedLength(here);
    ListedIsSquare(here);
    AddAllElements(v.loaded, Listed(here));
  }

  lemma StartFaithful(here: Chunk, templates: bool)
    ensures Faithful(Start(here, templates), Square(here), if templates then {} else Square(here))
    ensures Start(here, templates).last == here
  {
    var blank, cs := View({}, here, []), Listed(here);
    FirstSend(blank, here);
    FirstSend(Send(blank, cs, here), here);
    ListedIsSquare(here);
    hide Square, Listed, Times, Send;
    assert [] + cs == cs;
    forall c
      ensures Times(cs, c) == if c in Square(here) then 1 else 0
      ensures Times(cs + cs, c) == if c in Square(here) then 2 else 0
    {
      TimesDistinct(cs, c);
      TimesAppend(cs, cs, c);
    }
  }

  lemma ListedLength(c: Chunk)
    ensures |Listed(c)| == 81
  {
  }

  /**
   * Over every path of the player: whenever a check has been made the whole square around the player is loaded; what is
   * loaded is the union of the squares around the checked places; and each loaded chunk has been sent exactly once,
   * except that without templates the first square has been sent twice.
   */
  lemma StreamingOverRuns(here: Chunk, templates: bool, path: seq<Chunk>)
    ensures var v := Run(Start(here, templates), path);
            && Square(if path == [] then here else path[|path| - 1]) <= v.loaded
            && v.loaded == Seen([here] + path)
            && forall c :: Times(v.sent, c)
                           == (if c in v.loaded then 1 else 0) + (if !templates && c in Square(here) then 1 else 0)
  {
    hide Square, Run, Start;
    StartFaithful(here, templates);
    RunFaithful(Start(here, templates), path, Square(here), if templates then {} else Square(here));
    assert ([here] + path)[1..] == path;
    if path == [] { RunNothing(Start(here, templates)); }
  }

  lemma RunNothing(v: View)
    ensures Run(v, []) == v
  {
  }

  // ---- how much one step costs ----

  lemma {:induction false} RectSize(x: int, z: int, w: nat, h: nat)
    ensures |Rect(x, z, w, h)| == w * h
  {
    if w == 0 {
      assert Rect(x, z, w, h) == {};
    } else {
      RectSize(x, z, w - 1, h);
      ColumnSize(x + w - 1, z, h);
      assert Rect(x, z, w, h) == Rect(x, z, w - 1, h) + Rect(x + w - 1, z, 1, h);
      assert w * h == (w - 1) * h + h;
    }
  }

  lemma {:induction false} ColumnSize(x: int, z: int, h: nat)
    ensures |Rect(x, z, 1, h)| == h
  {
    if h == 0 {
      assert Rect(x, z, 1, h) == {};
    } else {
      ColumnSize(x, z, h - 1);
      assert Rect(x, z, 1, h) == Rect(x, z, 1, h - 1) + {(x, z + h - 1)};
    }
  }

  function Overlap(d: int): nat {
    if -9 < d < 9 then 9 - (if d < 0 then -d else d) else 0
  }

  lemma InRect(p: Chunk, x: int, z: int, w: nat, h: nat)
    ensures p in Rect(x, z, w, h) <==> x <= p.0 < x + w && z <= p.1 < z + h
  {
  }

  /** Two intervals of nine meet in one that begins at the later of them. */
  lemma SidesMeet(a: int, b: int, p: int)
    ensures var start := (if a < b then b else a) - VIEW_RADIUS;
            a - VIEW_RADIUS <= p < a - VIEW_RADIUS + 9 && b - VIEW_RADIUS <= p < b - VIEW_RADIUS + 9
            <==> start <= p < start + Overlap(b - a)
  {
  }

  lemma MeetIsRect(a: Chunk, b: Chunk)
    ensures Square(a) * Square(b)
         == Rect((if a.0 < b.0 then b.0 else a.0) - VIEW_RADIUS, (if a.1 < b.1 then b.1 else a.1) - VIEW_RADIUS,
                 Overlap(b.0 - a.0), Overlap(b.1 - a.1))
  {
    var x := if a.0 < b.0 then b.0 else a.0;
    var z := if a.1 < b.1 then b.1 else a.1;
    var w, h := Overlap(b.0 - a.0), Overlap(b.1 - a.1);
    hide Rect, Overlap;
    forall p: Chunk
      ensures p in Square(a) && p in Square(b) <==> p in Rect(x - VIEW_RADIUS, z - VIEW_RADIUS, w, h)
    {
      InRect(p, a.0 - VIEW_RADIUS, a.1 - VIEW_RADIUS, 9, 9);
      InRect(p, b.0 - VIEW_RADIUS, b.1 - VIEW_RADIUS, 9, 9);
      InRect(p, x - VIEW_RADIUS, z - VIEW_RADIUS, w, h);
      SidesMeet(a.0, b.0, p.0);
      SidesMeet(a.1, b.1, p.1);
    }
  }

  lemma SquaresMeet(a: Chunk, b: Chunk)
    ensures |Square(a) * Square(b)| == Overlap(b.0 - a.0) * Overlap(b.1 - a.1)
  {
    hide Overlap, Rect, Square;
    MeetIsRect(a, b);
    RectSize((if a.0 < b.0 then b.0 else a.0) - VIEW_RADIUS, (if a.1 < b.1 then b.1 else a.1) - VIEW_RADIUS,
             Overlap(b.0 - a.0), Overlap(b.1 - a.1));
  }

  lemma {:induction false} DistinctSize(cs: seq<Chunk>)
    requires Distinct(cs)
    ensures |Elements(cs)| == |cs|
  {
    if cs != [] {
      DistinctSize(cs[1..]);
      assert Elements(cs) == {cs[0]} + Elements(cs[1..]);
    } else {
      assert Elements(cs) == {};
    }
  }

  /**
   * A step by (dx, dz) loads at most the part of the new square outside the old one, all of it distinct; and exactly
   * that part if nothing beyond the old square has been loaded before.
   */
  lemma StepCost(v: View, here: Chunk)
    requires Square(v.last) <= v.loaded
    ensures var unsent, fixed := Missing(Listed(here), v.loaded), Overlap(here.0 - v.last.0) * Overlap(here.1 - v.last.1);
            && Distinct(unsent) && |unsent| <= 81 - fixed
            && (v.loaded * Square(here) <= Square(v.last) ==> |unsent| == 81 - fixed)
  {
    hide Listed, Missing, Rect, Distinct, Overlap, Elements;
    var unsent := Missing(Listed(here), v.loaded);
    ListedIsSquare(here);
    MissingElements(Listed(here), v.loaded);
    DistinctSize(unsent);
    SquaresMeet(v.last, here);
    RectSize(here.0 - VIEW_RADIUS, here.1 - VIEW_RADIUS, 9, 9);
    UnsentSize(v.loaded, Square(v.last), Square(here), Elements(unsent));
  }

  lemma UnsentSize(loaded: set<Chunk>, a: set<Chunk>, b: set<Chunk>, unsent: set<Chunk>)
    requires a <= loaded && unsent == b - loaded
    ensures |unsent| <= |b| - |a * b|
    ensures loaded * b <= a ==> |unsent| == |b| - |a * b|
  {
    Partition(a, b);
    SubsetSize(unsent, b - a);
    if loaded * b <= a { assert unsent == b - a; }
  }

  lemma Partition(a: set<Chunk>, b: set<Chunk>)
    ensures |b| == |b - a| + |a * b|
  {
    assert b == (b - a) + a * b;
  }

  lemma {:induction false} SubsetSize(a: set<Chunk>, b: set<Chunk>)
    requires a <= b
    ensures |a| <= |b|
  {
    if c :| c in a {
      SubsetSize(a - {c}, b - {c});
    }
  }
}
