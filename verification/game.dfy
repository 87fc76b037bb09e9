/** One iteration of the main loop of Program.cs, with the window, the message pump, key
    polling and the timer thread replaced by explicit inputs: move the sprite, compose the
    frame (clear to black, background at the origin, sprite at its position), run the goal
    check, present. */
module Game {
  import opened Wrappers
  import opened Pixels
  import opened Compositor
  import opened Movement
  import opened Score

  /** Everything the loop keeps between frames. */
  datatype World = World(renderer: Renderer, background: Image, sprite: Image, pos: Position, state: GameState) {
    predicate Valid() {
      renderer.Valid() && background.WellFormed() && sprite.WellFormed()
    }
  }

  /** The frame the loop composes: clear to black, then the background at (0, 0), then the
      sprite at `pos`, in that order. */
  function Composed(r: Renderer, background: Image, sprite: Image, pos: Position): (r': Renderer)
    requires r.Valid() && background.WellFormed() && sprite.WellFormed()
    ensures r'.Valid() && r'.width == r.width && r'.height == r.height && r'.hwnd == r.hwnd
  {
    Drawn(Drawn(Cleared(r, Black), background, 0, 0), sprite, pos.x, pos.y)
  }

  /** Every pixel of a composed frame is opaque. */
  lemma {:induction false} FrameOpaque(r: Renderer, background: Image, sprite: Image, pos: Position, x: nat, y: nat)
    requires r.Valid() && background.WellFormed() && sprite.WellFormed()
    requires x < r.width && y < r.height
    ensures Pixel(Composed(r, background, sprite, pos), x, y).a == 255
  {
    var cleared := Cleared(r, Black);
    var withBackground := Drawn(cleared, background, 0, 0);
    DrawPixel(cleared, background, 0, 0, x, y);
    DrawPixel(withBackground, sprite, pos.x, pos.y, x, y);
  }

  /** The sprite is drawn over the background: where a sprite pixel is opaque the frame
      shows exactly that pixel, whatever the background holds there. */
  lemma {:induction false} FrameSpriteOnTop(r: Renderer, background: Image, sprite: Image, pos: Position, x: nat, y: nat)
    requires r.Valid() && background.WellFormed() && sprite.WellFormed()
    requires x < r.width && y < r.height
    requires Under(sprite, pos.x, pos.y, x, y) && SourcePixel(sprite, x - pos.x, y - pos.y).a == 255
    ensures Pixel(Composed(r, background, sprite, pos), x, y) == SourcePixel(sprite, x - pos.x, y - pos.y)
  {
    DrawOpaqueCopies(Drawn(Cleared(r, Black), background, 0, 0), sprite, pos.x, pos.y, x, y);
  }

  /** Away from the sprite the frame shows the background blended over black, and black
      where the background does not reach. */
  lemma {:induction false} FrameBackground(r: Renderer, background: Image, sprite: Image, pos: Position, x: nat, y: nat)
    requires r.Valid() && background.WellFormed() && sprite.WellFormed()
    requires x < r.width && y < r.height
    requires !Under(sprite, pos.x, pos.y, x, y)
    ensures var shown := Pixel(Composed(r, background, sprite, pos), x, y);
      if Under(background, 0, 0, x, y) then
        var bg := SourcePixel(background, x, y);
        shown == Color(255, Blend(bg.r, 0, bg.a), Blend(bg.g, 0, bg.a), Blend(bg.b, 0, bg.a))
      else
        shown == Black
  {
    var cleared := Cleared(r, Black);
    DrawPixel(cleared, background, 0, 0, x, y);
    DrawKeepsUncovered(Drawn(cleared, background, 0, 0), sprite, pos.x, pos.y, x, y);
  }

  /** Draw order matters: where an opaque image and a second image overlap, drawing the
      second one last blends it over the first, while drawing it first lets the opaque one
      cover it completely. The two orders differ wherever that blend differs from the
      opaque pixel. */
  lemma {:induction false} DrawOrderMatters(r: Renderer, bottom: Image, top: Image, posX: int, posY: int, x: nat, y: nat)
    requires r.Valid() && bottom.WellFormed() && top.WellFormed()
    requires x < r.width && y < r.height
    requires Under(bottom, posX, posY, x, y) && Under(top, posX, posY, x, y)
    requires SourcePixel(bottom, x - posX, y - posY).a == 255
    ensures var b, t := SourcePixel(bottom, x - posX, y - posY), SourcePixel(top, x - posX, y - posY);
      && Pixel(Drawn(Drawn(r, bottom, posX, posY), top, posX, posY), x, y)
           == Color(255, Blend(t.r, b.r, t.a), Blend(t.g, b.g, t.a), Blend(t.b, b.b, t.a))
      && Pixel(Drawn(Drawn(r, top, posX, posY), bottom, posX, posY), x, y) == b
  {
    DrawOpaqueCopies(r, bottom, posX, posY, x, y);
    DrawPixel(Drawn(r, bottom, posX, posY), top, posX, posY, x, y);
    DrawOpaqueCopies(Drawn(r, top, posX, posY), bottom, posX, posY, x, y);
  }

  /** One loop iteration: the sprite moves for the keys held, the frame is composed and
      the goal checked, then the frame is presented; `close` says whether WM_CLOSE is
      posted on this frame. */
  method Frame(w: World, keys: Keys) returns (w': World, presented: Result<seq<byte>, RenderError>, close: bool)
    requires w.Valid()
    ensures w'.Valid()
    ensures w'.pos == Step(w.pos, keys, w.sprite.width, w.sprite.height)
    ensures w'.renderer == Composed(w.renderer, w.background, w.sprite, w'.pos)
    ensures w'.background == w.background && w'.sprite == w.sprite
    ensures w'.state.score == w.state.score
    ensures close <==> w.state.score >= ScoreGoal || w.state.ifGoalReach == 1
    ensures close <==> w'.state.ifGoalReach == 1
    ensures presented.Failure? <==> w.renderer.hwnd == NullHandle
    ensures presented.Success? ==> presented.value == w'.renderer.framebuffer
  {
    var pos := Step(w.pos, keys, w.sprite.width, w.sprite.height);
    var r := Clear(w.renderer, Black);
    r := DrawImage(r, w.background, 0, 0);
    r := DrawImage(r, w.sprite, pos.x, pos.y);
    var state := CheckGoal(w.state);
    close := CloseRequested(state);
    presented := Present(r);
    w' := w.(renderer := r, pos := pos, state := state);
  }
}
