/** `handle_studying_input` of src/scenes/studying/input.rs, restricted to
    what the scene itself decides: revealing the answer, showing ruby
    readings while a shift key is held, scrolling the revealed card, and
    which rating (or rewind) it dispatches. */
module Studying {
  import opened Wrappers
  import opened Arith
  import opened Events
  import opened Layout
  import opened Scheduler
  import opened AppState

  /** Pixels one scroll step moves. */
  const ScrollSpeed: int := 30

  /** Height of the visible part of the card. */
  const ViewportHeight: int := 290

  /** Gap between the front and the back of a revealed card. */
  const CardGap: int := 20

  /** What the handler asks of the scheduler: nothing, answer the current
      card with a rating and load the next one, or rewind. */
  datatype Action = NoAction | Answer(rating: Rating) | Rewind

  /** Height of the revealed card: the small front above the back, or 0
      when either layout is missing. */
  function ContentHeight(st: StudyState): int {
    if st.smallFrontLayout.Some? && st.backLayout.Some? then
      st.smallFrontLayout.value.totalHeight + st.backLayout.value.totalHeight + CardGap
    else 0
  }

  /** The largest offset scrolling down reaches. */
  function MaxScroll(st: StudyState): (m: int)
    ensures m >= 0
    ensures m >= ContentHeight(st) - ViewportHeight
    ensures m == 0 || m == ContentHeight(st) - ViewportHeight
  {
    Max(ContentHeight(st) - ViewportHeight, 0)
  }

  /** Scroll offsets stay between the top and the largest offset. */
  predicate ScrollInBounds(st: StudyState) {
    0 <= st.scrollOffset <= MaxScroll(st)
  }

  function ScrollUp(st: StudyState): (st': StudyState)
    ensures st' == st.(scrollOffset := st'.scrollOffset)
    ensures st'.scrollOffset >= 0
    ensures st.scrollOffset >= ScrollSpeed ==> st'.scrollOffset == st.scrollOffset - ScrollSpeed
    ensures st.scrollOffset < ScrollSpeed ==> st'.scrollOffset == 0
  {
    st.(scrollOffset := Max(st.scrollOffset - ScrollSpeed, 0))
  }

  function ScrollDown(st: StudyState): (st': StudyState)
    ensures st' == st.(scrollOffset := st'.scrollOffset)
    ensures st'.scrollOffset <= MaxScroll(st)
    ensures st.scrollOffset + ScrollSpeed <= MaxScroll(st) ==> st'.scrollOffset == st.scrollOffset + ScrollSpeed
    ensures st.scrollOffset + ScrollSpeed > MaxScroll(st) ==> st'.scrollOffset == MaxScroll(st)
  {
    st.(scrollOffset := Min(st.scrollOffset + ScrollSpeed, MaxScroll(st)))
  }

  /** The keyboard's rating keys: B Again, Y Hard, A Good, X Easy. Each
      rating has exactly one key, and no other key rates. */
  function KeyRating(k: Key): (r: Option<Rating>)
    ensures r == Some(Again) <==> k == KeyB
    ensures r == Some(Hard) <==> k == KeyY
    ensures r == Some(Good) <==> k == KeyA
    ensures r == Some(Easy) <==> k == KeyX
  {
    match k
    case KeyB => Some(Again)
    case KeyY => Some(Hard)
    case KeyA => Some(Good)
    case KeyX => Some(Easy)
    case _ => None
  }

  predicate IsFaceButton(b: Button) {
    b == PadA || b == PadB || b == PadX || b == PadY
  }

  predicate IsArrow(k: Key) {
    k == Up || k == Down || k == Left || k == Right
  }

  /** A gamepad event. DPadDown reveals the answer; any face button, once
      the answer is shown, answers Good; LeftShoulder rewinds; the right
      shoulder shows ruby readings while it is held. */
  function PadInput(st: StudyState, e: Event): (r: (StudyState, Action))
    requires e.ButtonDown? || e.ButtonUp?
    ensures r.0 == st.(revealed := r.0.revealed, showRuby := r.0.showRuby)
    ensures r.0.revealed <==> st.revealed || e == ButtonDown(DPadDown)
    ensures r.1.Answer? <==> st.revealed && e.ButtonDown? && IsFaceButton(e.button)
    ensures r.1.Answer? ==> r.1.rating == Good
    ensures r.1.Rewind? <==> e == ButtonDown(LeftShoulder)
  {
    match e
    case ButtonDown(b) =>
      if b == DPadDown then (st.(revealed := true), NoAction)
      else if IsFaceButton(b) then (st, if st.revealed then Answer(Good) else NoAction)
      else if b == LeftShoulder then (st, Rewind)
      else if b == RightShoulder then (st.(showRuby := true), NoAction)
      else (st, NoAction)
    case ButtonUp(b) =>
      if b == RightShoulder then (st.(showRuby := false), NoAction) else (st, NoAction)
  }

  /** A fresh key press (Backspace is handled by the caller, since it leaves
      the scene). LShift shows ruby readings. Once the answer is shown, the
      rating keys answer and Up and Down scroll; before that, any arrow key
      reveals it. */
  function KeyInput(st: StudyState, k: Key): (r: (StudyState, Action))
    requires k != Backspace
    ensures r.0 == st.(revealed := r.0.revealed, showRuby := r.0.showRuby, scrollOffset := r.0.scrollOffset)
    ensures r.0.revealed <==> st.revealed || IsArrow(k)
    ensures r.0.scrollOffset != st.scrollOffset ==> st.revealed && (k == Up || k == Down)
    ensures r.1.Answer? <==> st.revealed && KeyRating(k).Some?
    ensures r.1.Answer? ==> Some(r.1.rating) == KeyRating(k)
    ensures !r.1.Rewind?
  {
    if k == LShift then (st.(showRuby := true), NoAction)
    else if st.revealed then
      if KeyRating(k).Some? then (st, Answer(KeyRating(k).value))
      else if k == Up then (ScrollUp(st), NoAction)
      else if k == Down then (ScrollDown(st), NoAction)
      else (st, NoAction)
    else if IsArrow(k) then (st.(revealed := true), NoAction)
    else (st, NoAction)
  }

  /** What reloading after a rating or a rewind finds. The scheduler's
      `next_card` and `rewind_last_answer`, the note lookup and the fonts
      that decide it are not part of this model. No further card finishes
      the deck; a card whose note is missing keeps the old layouts; any
      other card brings its two default layouts. */
  datatype Reload = DeckDone | NoteMissing | CardLayouts(smallFront: Option<TextLayout>, back: Option<TextLayout>)

  /** `load_next_card` and `load_card_layouts` of src/scenes/studying/logic.rs
      as the scene sees them: a loaded card starts hidden at the top with
      its layouts; a finished deck only sets the done flag. */
  function Reloaded(st: StudyState, reload: Reload): (st': StudyState)
    ensures st'.showRuby == st.showRuby
    ensures reload.DeckDone? ==> st' == st.(isDone := true)
    ensures !reload.DeckDone? ==> !st'.revealed && st'.scrollOffset == 0 && st'.isDone == st.isDone
    ensures reload.CardLayouts? ==> st'.smallFrontLayout == reload.smallFront && st'.backLayout == reload.back
    ensures reload.NoteMissing? ==> st' == st.(revealed := false, scrollOffset := 0)
    ensures ScrollInBounds(st) ==> ScrollInBounds(st')
  {
    match reload
    case DeckDone => st.(isDone := true)
    case NoteMissing => st.(revealed := false, scrollOffset := 0)
    case CardLayouts(f, b) => st.(revealed := false, scrollOffset := 0, smallFrontLayout := f, backLayout := b)
  }

  /** The scene after a handler branch: a dispatched rating or rewind is
      followed by the reload. */
  function Settle(st: StudyState, a: Action, reload: Reload): StudyState {
    if a.NoAction? then st else Reloaded(st, reload)
  }

  /** The handler: nothing happens outside the studying scene; a fresh
      Backspace goes back to deck selection; releasing LShift hides ruby
      readings again; a rating or a rewind reloads the scene. */
  function HandleStudyingInput(g: GameState, e: Event, reload: Reload): (r: (GameState, Action))
    ensures !g.Studying? ==> r == (g, NoAction)
    ensures g.Studying? ==> (r.0 == GoToDeckSelection <==> Pressed(e, Backspace))
    ensures g.Studying? && !Pressed(e, Backspace) ==> r.0.Studying?
    ensures r.1.Answer? ==> g.Studying? && g.study.revealed
    ensures !r.1.NoAction? ==> r.0 == Studying(Reloaded(g.study, reload))
    ensures r.1.Rewind? <==> g.Studying? && e == ButtonDown(LeftShoulder)
  {
    if !g.Studying? then (g, NoAction)
    else
      var st := g.study;
      if e.ButtonDown? || e.ButtonUp? then
        var (st', a) := PadInput(st, e);
        (Studying(Settle(st', a, reload)), a)
      else if e.KeyDown? && !e.repeat then
        if e.key == Backspace then (GoToDeckSelection, NoAction)
        else
          var (st', a) := KeyInput(st, e.key);
          (Studying(Settle(st', a, reload)), a)
      else if e == KeyUp(LShift) then (Studying(st.(showRuby := false)), NoAction)
      else (g, NoAction)
  }

  /** The action the handler dispatches on the scene. */
  function ActionOf(st: StudyState, e: Event): Action {
    HandleStudyingInput(Studying(st), e, DeckDone).1
  }

  /** The scene's state after an event, when it stays in the scene. */
  function After(st: StudyState, e: Event, reload: Reload): StudyState
    requires !Pressed(e, Backspace)
  {
    HandleStudyingInput(Studying(st), e, reload).0.study
  }

  /** The events that can dispatch a rating or a rewind. */
  predicate Dispatches(e: Event) {
    || e == ButtonDown(LeftShoulder)
    || (e.ButtonDown? && IsFaceButton(e.button))
    || (e.KeyDown? && !e.repeat && KeyRating(e.key).Some?)
  }

  // ---------------------------------------------------------------------
  // Properties
  // ---------------------------------------------------------------------

  /** The action never depends on the reload, and only a dispatching event
      dispatches. */
  lemma ActionIgnoresReload(st: StudyState, e: Event, reload: Reload)
    ensures HandleStudyingInput(Studying(st), e, reload).1 == ActionOf(st, e)
    ensures !ActionOf(st, e).NoAction? ==> Dispatches(e)
  {
  }

  /** No event moves the scroll offset out of bounds, and the layouts that
      bound it change only when a rating or a rewind loads a card. */
  lemma ScrollStaysInBounds(st: StudyState, e: Event, reload: Reload)
    requires ScrollInBounds(st) && !Pressed(e, Backspace)
    ensures ActionOf(st, e).NoAction? || !reload.CardLayouts? ==>
              After(st, e, reload).smallFrontLayout == st.smallFrontLayout &&
              After(st, e, reload).backLayout == st.backLayout
    ensures ScrollInBounds(After(st, e, reload))
  {
  }

  /** The offset moves only on a revealed card with Up or Down, by one step
      clamped to the bounds, or back to the top when a card is loaded. */
  lemma ScrollRules(st: StudyState, e: Event, reload: Reload)
    requires !Pressed(e, Backspace)
    ensures var off' := After(st, e, reload).scrollOffset;
            && (off' != st.scrollOffset ==>
                  (st.revealed && (Pressed(e, Up) || Pressed(e, Down)))
                  || (!ActionOf(st, e).NoAction? && !reload.DeckDone? && off' == 0))
            && (st.revealed && Pressed(e, Up) ==> off' == Max(st.scrollOffset - ScrollSpeed, 0))
            && (st.revealed && Pressed(e, Down) ==> off' == Min(st.scrollOffset + ScrollSpeed, MaxScroll(st)))
            && (!ActionOf(st, e).NoAction? && !reload.DeckDone? ==> off' == 0)
  {
  }

  /** The scene's state after a run of events, each with what a reload at
      that point would find, until one of them leaves the scene. */
  function Run(g: GameState, steps: seq<(Event, Reload)>): GameState
    decreases |steps|
  {
    if |steps| == 0 then g else Run(HandleStudyingInput(g, steps[0].0, steps[0].1).0, steps[1..])
  }

  /** Over any run of events that starts on a card scrolled within bounds,
      the scroll stays within bounds, and a shown answer stays shown as long
      as no event rates or rewinds. */
  lemma {:induction false} RunKeepsBounds(st: StudyState, steps: seq<(Event, Reload)>)
    requires ScrollInBounds(st)
    ensures var g := Run(Studying(st), steps);
            && (g.Studying? ==> ScrollInBounds(g.study))
            && (g.Studying? && st.revealed && (forall i :: 0 <= i < |steps| ==> !Dispatches(steps[i].0)) ==>
                  g.study.revealed)
    decreases |steps|
  {
    if |steps| > 0 {
      var (e, reload) := steps[0];
      var g := HandleStudyingInput(Studying(st), e, reload).0;
      if g.Studying? {
        ScrollStaysInBounds(st, e, reload);
        RevealRules(st, e, reload);
        ActionIgnoresReload(st, e, reload);
        RunKeepsBounds(g.study, steps[1..]);
        assert forall i :: 0 <= i < |steps[1..]| ==> steps[1..][i] == steps[i + 1];
      } else {
        LeftScene(steps[1..]);
      }
    }
  }

  /** Once the scene is left, later events here change nothing. */
  lemma {:induction false} LeftScene(steps: seq<(Event, Reload)>)
    ensures Run(GoToDeckSelection, steps) == GoToDeckSelection
    decreases |steps|
  {
    if |steps| > 0 {
      LeftScene(steps[1..]);
    }
  }

  /** Scrolling down and back up returns to the same offset when the step
      down was not clamped; scrolling up and back down likewise. */
  lemma ScrollInverse(st: StudyState, reload: Reload)
    requires st.revealed && ScrollInBounds(st)
    ensures st.scrollOffset + ScrollSpeed <= MaxScroll(st) ==>
              After(After(st, KeyDown(Down, false), reload), KeyDown(Up, false), reload) == st
    ensures st.scrollOffset >= ScrollSpeed ==>
              After(After(st, KeyDown(Up, false), reload), KeyDown(Down, false), reload) == st
  {
  }

  /** A shown answer stays shown unless a rating or a rewind loads a card,
      which hides it; a hidden one is revealed exactly by an arrow key press
      or DPadDown. */
  lemma RevealRules(st: StudyState, e: Event, reload: Reload)
    requires !Pressed(e, Backspace)
    ensures st.revealed && ActionOf(st, e).NoAction? ==> After(st, e, reload).revealed
    ensures !ActionOf(st, e).NoAction? && !reload.DeckDone? ==> !After(st, e, reload).revealed
    ensures !st.revealed ==>
              (After(st, e, reload).revealed <==>
                 e == ButtonDown(DPadDown) || (e.KeyDown? && !e.repeat && IsArrow(e.key)))
  {
  }

  /** Ruby readings are shown exactly while LShift or RightShoulder was last
      pressed: pressing either shows them, releasing either hides them, and
      nothing else touches the flag, reloads included. */
  lemma RubyToggle(st: StudyState, e: Event, reload: Reload)
    requires !Pressed(e, Backspace)
    ensures Pressed(e, LShift) || e == ButtonDown(RightShoulder) ==> After(st, e, reload).showRuby
    ensures e == KeyUp(LShift) || e == ButtonUp(RightShoulder) ==> !After(st, e, reload).showRuby
    ensures !(Pressed(e, LShift) || e == ButtonDown(RightShoulder) || e == KeyUp(LShift) || e == ButtonUp(RightShoulder)) ==>
              After(st, e, reload).showRuby == st.showRuby
    ensures Pressed(e, LShift) || e == ButtonDown(RightShoulder) || e == KeyUp(LShift) || e == ButtonUp(RightShoulder) ==>
              After(st, e, reload) == st.(showRuby := After(st, e, reload).showRuby)
  {
  }

  /** Ratings: on a revealed card the keys B, Y, A and X answer Again, Hard,
      Good and Easy and every face button answers Good; before the answer is
      shown nothing is rated. */
  lemma RatingDispatch(st: StudyState, e: Event)
    ensures var a := ActionOf(st, e);
            && (!st.revealed ==> !a.Answer?)
            && (st.revealed && e.KeyDown? && !e.repeat && KeyRating(e.key).Some? ==> a == Answer(KeyRating(e.key).value))
            && (st.revealed && e.ButtonDown? && IsFaceButton(e.button) ==> a == Answer(Good))
            && (a.Answer? ==> (e.KeyDown? && !e.repeat && KeyRating(e.key) == Some(a.rating))
                               || (e.ButtonDown? && IsFaceButton(e.button) && a.rating == Good))
  {
  }
}
