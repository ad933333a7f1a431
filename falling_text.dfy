/** The four cooperating classes of the falling-text engine. Each method is
    proved to change its objects exactly as the matching function of module
    RainSpec says; the properties of those functions are proved there. The
    canvas is the renderer's log of painting calls and Math.random is a
    RandomSource passed to the methods that draw from it. */
module FallingTextEngine {

  import opened Random
  import opened Geometry
  import opened Glyphs
  import opened RainSpec

  /** Knows how to render text on a canvas of fixed pixel size. */
  class TextRenderer {
    const height: nat
    const width: nat
    const fontSize: nat
    const renderFont: string
    const rowCount: real
    const columnCount: real
    /** Every painting call made on the canvas so far, oldest first. */
    var log: seq<CanvasOp>

    /** The derived geometry is the one the canvas size and font size give. */
    ghost predicate Valid()
    {
      fontSize == FontSize && rowCount == RowCount(height) && columnCount == ColumnCount(width)
    }

    constructor (height: nat, width: nat)
      ensures Valid()
      ensures this.height == height && this.width == width
      ensures renderFont == "24px arial" && log == []
    {
      this.height := height;
      this.width := width;
      fontSize := 24;
      renderFont := "24px arial";
      rowCount := height as real / 24 as real;
      columnCount := width as real / 24 as real;
      log := [];
    }

    /** `getRandomColumn`: one draw of Math.random scaled to the column count
        and floored. */
    method GetRandomColumn(rng: RandomSource) returns (c: int)
      requires Valid() && rng.Valid()
      modifies rng`drawn
      ensures c == RandomColumn(width, rng.stream(old(rng.drawn))) && rng.drawn == old(rng.drawn) + 1
      ensures width > 0 ==> IsValidColumn(width, c)
    {
      var r := rng.Next();
      c := (r * columnCount).Floor;
      if width > 0 {
        RandomColumnValid(width, r);
      }
    }

    /** `hasReachedBottom`: the row is strictly past `row_count`, that is
        `row * 24 > height`. */
    predicate HasReachedBottom(row: int)
      ensures Valid() ==> (HasReachedBottom(row) <==> row * FontSize > height)
    {
      ReachedBottomIff(height, row);
      (row as real) > rowCount
    }

    /** `clearCanvas`: one translucent fade over the whole canvas. */
    method ClearCanvas()
      modifies this`log
      ensures log == old(log) + [Clear]
    {
      log := log + [Clear];
    }

    /** `render`: `text` painted at the cell `(x, y)` scaled to pixels. */
    method Render(text: Text, x: int, y: int)
      requires Valid()
      modifies this`log
      ensures log == old(log) + [Draw(text, x * FontSize, y * FontSize)]
    {
      log := log + [Draw(text, x * fontSize, y * fontSize)];
    }
  }

  /** A repository of the text available for falling: a sequence and the
      index `n` of the next text to use. */
  class TextRepository {
    var repository: seq<string>
    var n: nat

    constructor ()
      ensures repository == DefaultRepository && n == 0
      ensures CursorValid(repository, n)
    {
      repository := ["α", "β", "γ", "δ", "ε", "ζ", "η", "θ", "ι", "κ"];
      n := 0;
    }

    /** The completion of `populateFromFile`: the whole sequence is replaced
        in one step by the lines of the file; the cursor stays where it was. */
    method PopulateFromFile(lines: seq<string>)
      modifies this`repository
      ensures repository == lines && n == old(n)
    {
      repository := lines;
    }

    /** `getNextText`: reset the cursor if it equals the length, then read at
        the cursor and move it on by one. */
    method GetNextText() returns (t: Text)
      modifies this`n
      ensures (t, n) == NextText(repository, old(n))
      ensures old(CursorValid(repository, n)) ==>
                ReadIndex(repository, old(n)) < |repository| &&
                t == Defined(repository[ReadIndex(repository, old(n))]) &&
                CursorValid(repository, n)
    {
      if n == |repository| {
        n := 0;
      }
      t := if n < |repository| then Defined(repository[n]) else Undefined;
      n := n + 1;
    }
  }

  /** The shared state of the engine at this moment, as a value. */
  ghost function EnvOf(repo: TextRepository, rng: RandomSource): Env
    reads repo, rng
  {
    Env(repo.repository, repo.n, rng.drawn)
  }

  /** A piece of falling text. */
  class FallingText {
    const textRepo: TextRepository
    const textRenderer: TextRenderer
    var text: Text
    var x: int
    var y: nat

    ghost function State(): Drop
      reads this
    {
      Drop(text, x, y)
    }

    /** A new piece of falling text starts with new details at once. */
    constructor (textRepo: TextRepository, textRenderer: TextRenderer, rng: RandomSource)
      requires textRenderer.Valid() && rng.Valid()
      modifies textRepo`n, rng`drawn
      ensures this.textRepo == textRepo && this.textRenderer == textRenderer
      ensures (State(), EnvOf(textRepo, rng)) == Spawn(old(EnvOf(textRepo, rng)), textRenderer.width, rng.stream)
    {
      this.textRepo := textRepo;
      this.textRenderer := textRenderer;
      text, x, y := Undefined, 0, 0;
      new;
      New(rng);
    }

    /** `new`: the next text, a random column, and the top row. */
    method New(rng: RandomSource)
      requires textRenderer.Valid() && rng.Valid()
      modifies this, textRepo`n, rng`drawn
      ensures (State(), EnvOf(textRepo, rng)) == Spawn(old(EnvOf(textRepo, rng)), textRenderer.width, rng.stream)
    {
      text := textRepo.GetNextText();
      x := textRenderer.GetRandomColumn(rng);
      y := 0;
    }

    /** `render`: paint the text where it is now. */
    method Render()
      requires textRenderer.Valid()
      modifies textRenderer`log
      ensures textRenderer.log == old(textRenderer.log) + [DrawOf(State())]
    {
      textRenderer.Render(text, x, y);
    }

    /** `moveDown`: one row down; past the bottom, a random draw above 0.9
        sends the text back to the top with new details. */
    method MoveDown(rng: RandomSource)
      requires textRenderer.Valid() && rng.Valid()
      modifies this, textRepo`n, rng`drawn
      ensures (State(), EnvOf(textRepo, rng)) ==
                RainSpec.MoveDown(old(State()), old(EnvOf(textRepo, rng)),
                                  textRenderer.height, textRenderer.width, rng.stream)
    {
      y := y + 1;
      if textRenderer.HasReachedBottom(y) {
        var r := rng.Next();
        if r > 0.9 {
          New(rng);
        }
      }
    }
  }

  /** The states of a sequence of drops, as values. The ensures clauses only
      spell the definition out element by element, the form the proofs of the
      controller use. */
  ghost function StatesOf(fs: seq<FallingText>): (r: seq<Drop>)
    reads fs
    ensures |r| == |fs|
    ensures forall i :: 0 <= i < |fs| ==> r[i] == fs[i].State()
  {
    seq(|fs|, i requires 0 <= i < |fs| reads fs => fs[i].State())
  }

  /** Creates the falling texts and then renders and updates them. */
  class RainController {
    const textRenderer: TextRenderer
    /** The repository all drops share; the controller itself keeps no
        reference to it, only its drops do. */
    ghost const textRepo: TextRepository
    const fallingText: seq<FallingText>

    /** Nine distinct drops that share one repository and one renderer. */
    ghost predicate Valid()
    {
      textRenderer.Valid() &&
      |fallingText| == DropCount &&
      (forall i, j :: 0 <= i < j < |fallingText| ==> fallingText[i] != fallingText[j]) &&
      (forall i :: 0 <= i < |fallingText| ==>
         fallingText[i].textRepo == textRepo && fallingText[i].textRenderer == textRenderer)
    }

    constructor (textRenderer: TextRenderer, rng: RandomSource)
      requires textRenderer.Valid() && rng.Valid()
      modifies rng`drawn
      ensures Valid() && this.textRenderer == textRenderer && fresh(textRepo)
      ensures textRepo.repository == DefaultRepository
      ensures (StatesOf(fallingText), EnvOf(textRepo, rng)) ==
                SpawnAll(DropCount, Env(DefaultRepository, 0, old(rng.drawn)), textRenderer.width, rng.stream)
    {
      var repo := new TextRepository();
      var drops: seq<FallingText> := [];
      ghost var states: seq<Drop> := [];
      ghost var env0 := EnvOf(repo, rng);
      var i := 0;
      while i < DropCount
        invariant 0 <= i <= DropCount && |drops| == |states| == i
        invariant fresh(repo) && repo.repository == DefaultRepository
        invariant forall j :: 0 <= j < i ==> fresh(drops[j])
        invariant forall j, k :: 0 <= j < k < i ==> drops[j] != drops[k]
        invariant forall j :: 0 <= j < i ==>
                    drops[j].textRepo == repo && drops[j].textRenderer == textRenderer &&
                    drops[j].State() == states[j]
        invariant (states, EnvOf(repo, rng)) == SpawnAll(i, env0, textRenderer.width, rng.stream)
      {
        var ft := new FallingText(repo, textRenderer, rng);
        drops := drops + [ft];
        states := states + [ft.State()];
        i := i + 1;
      }
      StatesMatch(drops, states);
      this.textRenderer := textRenderer;
      textRepo := repo;
      fallingText := drops;
    }

    /** One drop's turn within the tick: it is painted where it is and then
        moved down. */
    method Step(i: nat, rng: RandomSource)
      requires Valid() && rng.Valid() && i < |fallingText|
      modifies textRenderer`log, textRepo`n, rng`drawn, fallingText[i]
      ensures textRenderer.log == old(textRenderer.log) + [DrawOf(old(fallingText[i].State()))]
      ensures (fallingText[i].State(), EnvOf(textRepo, rng)) ==
                RainSpec.MoveDown(old(fallingText[i].State()), old(EnvOf(textRepo, rng)),
                                  textRenderer.height, textRenderer.width, rng.stream)
      ensures forall j :: 0 <= j < |fallingText| && j != i ==> fallingText[j].State() == old(fallingText[j].State())
    {
      var displayText := fallingText[i];
      displayText.Render();
      displayText.MoveDown(rng);
    }

    /** `render`, the tick: one fade over the canvas, then each drop in
        array order is painted where it is and then moved down. */
    method Render(rng: RandomSource)
      requires Valid() && rng.Valid()
      modifies textRenderer`log, textRepo`n, rng`drawn, fallingText
      ensures textRenderer.log == old(textRenderer.log) + TickLog(old(StatesOf(fallingText)))
      ensures (StatesOf(fallingText), EnvOf(textRepo, rng)) ==
                AdvanceAll(old(StatesOf(fallingText)), old(EnvOf(textRepo, rng)),
                           textRenderer.height, textRenderer.width, rng.stream)
    {
      ghost var before := StatesOf(fallingText);
      ghost var env0 := EnvOf(textRepo, rng);
      ghost var cur := before;
      textRenderer.ClearCanvas();
      var i := 0;
      while i < |fallingText|
        invariant 0 <= i <= |fallingText| && |cur| == |fallingText|
        invariant textRenderer.log == old(textRenderer.log) + TickLog(before[..i])
        invariant forall j :: 0 <= j < |fallingText| ==> fallingText[j].State() == cur[j]
        invariant cur == AdvancePrefix(before, i, env0, textRenderer.height, textRenderer.width, rng.stream).0 + before[i..]
        invariant EnvOf(textRepo, rng) == AdvancePrefix(before, i, env0, textRenderer.height, textRenderer.width, rng.stream).1
      {
        ghost var prev := AdvancePrefix(before, i, env0, textRenderer.height, textRenderer.width, rng.stream).0;
        Step(i, rng);
        ghost var next := fallingText[i].State();
        SpliceStep(prev, next, before, i);
        cur := cur[i := next];
        TickLogSnoc(before, i);
        i := i + 1;
      }
      AdvancePrefixDone(before, env0, textRenderer.height, textRenderer.width, rng.stream);
      StatesMatch(fallingText, cur);
    }
  }

  /** Drops whose states are `cur`, one by one, have `cur` as their states. */
  lemma StatesMatch(fs: seq<FallingText>, cur: seq<Drop>)
    requires |fs| == |cur| && forall j :: 0 <= j < |fs| ==> fs[j].State() == cur[j]
    ensures StatesOf(fs) == cur
  {
  }

  /** Replacing the first unprocessed element of `done + rest[i..]` moves the
      boundary one place on. */
  lemma SpliceStep(done: seq<Drop>, next: Drop, rest: seq<Drop>, i: nat)
    requires |done| == i < |rest|
    ensures (done + rest[i..])[i] == rest[i]
    ensures (done + rest[i..])[i := next] == (done + [next]) + rest[i + 1..]
  {
  }

  /** A 256 x 256 canvas after the controller is created and ticked once:
      the canvas got one fade and nine glyphs, all in the top row, and every
      drop has moved to row 1 (10.67 rows, so no drop is near the bottom). */
  method FirstTickOn256(stream: nat -> real) returns (drops: seq<FallingText>, painted: seq<CanvasOp>)
    requires IsUnitStream(stream)
    ensures |drops| == DropCount && forall i :: 0 <= i < DropCount ==> drops[i].y == 1
    ensures |painted| == DropCount + 1 && painted[0] == Clear
    ensures forall i :: 1 <= i <= DropCount ==> painted[i].Draw? && painted[i].py == 0
  {
    var size: nat := 256;
    var renderer := new TextRenderer(size, size);
    var rng := new RandomSource(stream);
    var rain := new RainController(renderer, rng);
    ghost var start := StatesOf(rain.fallingText);
    ghost var env0 := EnvOf(rain.textRepo, rng);
    ControllerDrops(0, size, stream);
    FirstTickPaintsTopRow(start, env0, size, size, stream);
    rain.Render(rng);
    drops, painted := rain.fallingText, renderer.log;
    ghost var after := AdvanceAll(start, env0, size, size, stream).0;
    assert StatesOf(drops) == after;
    forall i | 0 <= i < DropCount
      ensures drops[i].y == 1
    {
      assert drops[i].State() == after[i];
    }
  }
}
