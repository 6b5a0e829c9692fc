/** `GameState` of src/state.rs and the parts of the scene states the input
    handlers read and write. */
module AppState {
  import opened Wrappers
  import opened Layout

  /** The studying scene as its input handler sees it: whether the deck is
      finished, whether the answer is shown, the scroll offset, whether ruby
      readings are shown, and the two default layouts whose heights bound
      the scroll. The scheduler,
      database and replay log it also holds are reached only through the
      `Action` the handler returns. */
  datatype StudyState = StudyState(
    isDone: bool,
    revealed: bool,
    scrollOffset: int,
    showRuby: bool,
    smallFrontLayout: Option<TextLayout>,
    backLayout: Option<TextLayout>)

  /** The current screen. The deck-selection and loading screens carry data
      the two handlers here never look at. */
  datatype GameState =
    | MainMenu(selectedIndex: nat)
    | GoToDeckSelection
    | DeckSelection
    | Loading
    | Studying(study: StudyState)
    | Error(message: string)
}
