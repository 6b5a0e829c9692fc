/** `handle_main_menu_input` of src/scenes/main_menu/input.rs: moving the
    selection over the three options Study, Profile and Quit, and confirming
    one. */
module MainMenu {
  import opened Wrappers
  import opened Arith
  import opened Events
  import opened AppState

  /** The menu's options, by index: Study, Profile, Quit. */
  const OptionCount: nat := 3

  /** The last selectable index. */
  const LastOption: nat := OptionCount - 1

  /** Up moves the selection one option up, stopping at the first. */
  function SelectUp(i: nat): (j: nat)
    ensures i > 0 ==> j + 1 == i
    ensures i == 0 ==> j == 0
  {
    SatSub(i, 1)
  }

  /** Down moves the selection one option down, stopping at the last. */
  function SelectDown(i: nat): (j: nat)
    ensures j <= LastOption
    ensures i < LastOption ==> j == i + 1
    ensures i >= LastOption ==> j == LastOption
  {
    Min(i + 1, LastOption)
  }

  /** The handler: only a fresh key press while the menu is shown does
      anything. Return on Study switches to deck selection, on Profile does
      nothing, and on Quit ends the program with the error "User quit". */
  function HandleMainMenuInput(g: GameState, e: Event): (r: Result<GameState>)
    ensures !(g.MainMenu? && e.KeyDown? && !e.repeat) ==> r == Ok(g)
    ensures r.Err? <==> g.MainMenu? && Pressed(e, Return) && g.selectedIndex == LastOption
    ensures r.Err? ==> r.error == "User quit"
    ensures r.Ok? && r.value != g ==> g.MainMenu? && e.KeyDown? && !e.repeat
    ensures r.Ok? && r.value.GoToDeckSelection? && g.MainMenu? <==>
              g.MainMenu? && Pressed(e, Return) && g.selectedIndex == 0
    ensures g.MainMenu? && r.Ok? && !r.value.GoToDeckSelection? ==> r.value.MainMenu?
  {
    if g.MainMenu? && e.KeyDown? && !e.repeat then
      var i := g.selectedIndex;
      match e.key
      case Up => Ok(MainMenu(SelectUp(i)))
      case Down => Ok(MainMenu(SelectDown(i)))
      case Return =>
        if i == 0 then Ok(GoToDeckSelection)
        else if i == 2 then Err("User quit")
        else Ok(g)
      case _ => Ok(g)
    else Ok(g)
  }

  /** The menu's states over a run of events, stopping at the first error. */
  function Run(g: GameState, events: seq<Event>): Result<GameState>
    decreases |events|
  {
    if |events| == 0 then Ok(g)
    else
      var r := HandleMainMenuInput(g, events[0]);
      if r.Err? then r else Run(r.value, events[1..])
  }

  /** The selection never leaves the three options: from a valid index,
      every event keeps it valid. */
  lemma IndexStaysInRange(g: GameState, e: Event)
    requires g.MainMenu? ==> g.selectedIndex <= LastOption
    ensures var r := HandleMainMenuInput(g, e);
            r.Ok? && r.value.MainMenu? ==> r.value.selectedIndex <= LastOption
  {
  }

  /** The same over any run of events, started on a valid index. */
  lemma {:induction false} RunStaysInRange(g: GameState, events: seq<Event>)
    requires g.MainMenu? ==> g.selectedIndex <= LastOption
    ensures var r := Run(g, events);
            r.Ok? && r.value.MainMenu? ==> r.value.selectedIndex <= LastOption
    decreases |events|
  {
    if |events| > 0 {
      IndexStaysInRange(g, events[0]);
      var r := HandleMainMenuInput(g, events[0]);
      if r.Ok? {
        RunStaysInRange(r.value, events[1..]);
      }
    }
  }

  /** Down then Up returns to the same option, unless Down was already at
      the last one; Up then Down likewise unless Up was at the first. */
  lemma UpDownInverse(i: nat)
    requires i <= LastOption
    ensures i < LastOption ==> SelectUp(SelectDown(i)) == i
    ensures i > 0 ==> SelectDown(SelectUp(i)) == i
    ensures HandleMainMenuInput(MainMenu(i), KeyDown(Down, false)) == Ok(MainMenu(SelectDown(i)))
    ensures HandleMainMenuInput(MainMenu(i), KeyDown(Up, false)) == Ok(MainMenu(SelectUp(i)))
  {
  }

  /** A run fails exactly when Return is pressed while Quit is selected,
      always with the quit message, and stops there whatever follows. */
  lemma {:induction false} RunQuits(g: GameState, events: seq<Event>)
    ensures Run(g, events).Err? ==>
              && Run(g, events) == Err("User quit")
              && exists k :: 0 <= k < |events| && Run(g, events[..k]) == Ok(MainMenu(LastOption)) && Pressed(events[k], Return)
    ensures forall k :: 0 <= k < |events| && Run(g, events[..k]) == Ok(MainMenu(LastOption)) && Pressed(events[k], Return) ==>
              Run(g, events) == Err("User quit")
    decreases |events|
  {
    if |events| > 0 {
      var r := HandleMainMenuInput(g, events[0]);
      assert events[..0] == [];
      if r.Ok? {
        var rest := events[1..];
        RunQuits(r.value, rest);
        forall k | 1 <= k <= |events|
          ensures Run(g, events[..k]) == Run(r.value, rest[..k - 1])
        {
          assert events[..k][1..] == rest[..k - 1];
        }
        if Run(g, events).Err? {
          var k :| 0 <= k < |rest| && Run(r.value, rest[..k]) == Ok(MainMenu(LastOption)) && Pressed(rest[k], Return);
          assert events[k + 1] == rest[k];
        }
        forall k | 0 <= k < |events| && Run(g, events[..k]) == Ok(MainMenu(LastOption)) && Pressed(events[k], Return)
          ensures Run(g, events) == Err("User quit")
        {
          if k > 0 {
            assert rest[k - 1] == events[k];
          }
        }
      }
    }
  }
}
