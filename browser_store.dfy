/**
 * The browser screen's state container: an immutable state tree with five
 * quick-action-sheet flags, a closed family of actions, and the pure reducer
 * that the browser store is built around.  Every action overwrites exactly one
 * flag, so the interesting facts are field isolation, idempotence,
 * commutation of actions on different flags and "the last write wins" over a
 * whole sequence of dispatched actions.
 */
module BrowserStore {

  /** The flags of the quick action sheet for the session on screen. */
  datatype QuickActionSheetState = QuickActionSheetState(
    readable: bool,       // the session can show a reader view
    bookmarked: bool,     // the session is already bookmarked
    readerActive: bool,   // the session is in reader mode
    bounceNeeded: bool,   // the sheet should bounce
    isAppLink: bool
  )

  /** The root state of the browser screen. */
  datatype BrowserState = BrowserState(quickActionSheetState: QuickActionSheetState)

  /** The actions that change the quick action sheet. */
  datatype QuickActionSheetAction =
    | BookmarkedStateChange(bookmarked: bool)
    | ReadableStateChange(readable: bool)
    | ReaderActiveStateChange(active: bool)
    | AppLinkStateChange(isAppLink: bool)
    | BounceNeededChange

  /**
   * The sealed family of browser actions.  Its only sub-family is that of the
   * quick action sheet.
   */
  datatype BrowserAction = QuickActionSheet(action: QuickActionSheetAction)

  // ---------------------------------------------------------------------------
  // A reference view of the state: one value per flag
  // ---------------------------------------------------------------------------

  /** Names of the five flags, so that "every other flag" can be quantified over. */
  datatype Flag = Readable | Bookmarked | ReaderActive | BounceNeeded | IsAppLink

  /** The value of one flag in a state. */
  function FlagValue(state: BrowserState, f: Flag): bool
  {
    var q := state.quickActionSheetState;
    match f
    case Readable => q.readable
    case Bookmarked => q.bookmarked
    case ReaderActive => q.readerActive
    case BounceNeeded => q.bounceNeeded
    case IsAppLink => q.isAppLink
  }

  /** The flag an action is about. */
  function Target(action: QuickActionSheetAction): Flag
  {
    match action
    case BookmarkedStateChange(_) => Bookmarked
    case ReadableStateChange(_) => Readable
    case ReaderActiveStateChange(_) => ReaderActive
    case AppLinkStateChange(_) => IsAppLink
    case BounceNeededChange => BounceNeeded
  }

  /** The value an action writes into its flag; the bounce request always writes true. */
  function Payload(action: QuickActionSheetAction): bool
  {
    match action
    case BookmarkedStateChange(b) => b
    case ReadableStateChange(r) => r
    case ReaderActiveStateChange(a) => a
    case AppLinkStateChange(v) => v
    case BounceNeededChange => true
  }

  /** Two states are equal exactly when they agree on every flag. */
  lemma FlagsDetermineState(s: BrowserState, t: BrowserState)
    ensures (forall f :: FlagValue(s, f) == FlagValue(t, f)) <==> s == t
  {
    if forall f :: FlagValue(s, f) == FlagValue(t, f) {
      assert FlagValue(s, Readable) == FlagValue(t, Readable);
      assert FlagValue(s, Bookmarked) == FlagValue(t, Bookmarked);
      assert FlagValue(s, ReaderActive) == FlagValue(t, ReaderActive);
      assert FlagValue(s, BounceNeeded) == FlagValue(t, BounceNeeded);
      assert FlagValue(s, IsAppLink) == FlagValue(t, IsAppLink);
    }
  }

  // ---------------------------------------------------------------------------
  // The reducers
  // ---------------------------------------------------------------------------

  /**
   * The quick-action-sheet reducer: the flag the action targets takes the
   * action's payload and every other flag keeps its value.
   */
  function Reduce(state: BrowserState, action: QuickActionSheetAction): (r: BrowserState)
    ensures FlagValue(r, Target(action)) == Payload(action)
    ensures forall f :: f != Target(action) ==> FlagValue(r, f) == FlagValue(state, f)
  {
    var q := state.quickActionSheetState;
    match action
    case BookmarkedStateChange(b) => state.(quickActionSheetState := q.(bookmarked := b))
    case ReadableStateChange(r) => state.(quickActionSheetState := q.(readable := r))
    case ReaderActiveStateChange(a) => state.(quickActionSheetState := q.(readerActive := a))
    case BounceNeededChange => state.(quickActionSheetState := q.(bounceNeeded := true))
    case AppLinkStateChange(v) => state.(quickActionSheetState := q.(isAppLink := v))
  }

  /**
   * The top-level reducer the store is built with: it is total over the sealed
   * action family and hands every quick-action-sheet action to Reduce.
   */
  function BrowserStateReducer(state: BrowserState, action: BrowserAction): (r: BrowserState)
    ensures FlagValue(r, Target(action.action)) == Payload(action.action)
    ensures forall f :: f != Target(action.action) ==> FlagValue(r, f) == FlagValue(state, f)
    ensures r == Reduce(state, action.action)
  {
    match action
    case QuickActionSheet(a) => Reduce(state, a)
  }

  // ---------------------------------------------------------------------------
  // Properties of one or two reductions
  // ---------------------------------------------------------------------------

  /** Each action only ever changes the one flag it names. */
  lemma ReduceIsolatesFields(state: BrowserState, action: QuickActionSheetAction, f: Flag)
    ensures FlagValue(Reduce(state, action), f) != FlagValue(state, f) ==> f == Target(action)
  {
  }

  /** Bookmarking sets bookmarked and leaves the other four flags alone. */
  lemma BookmarkedOnlyChangesBookmarked(state: BrowserState, b: bool)
    ensures Reduce(state, BookmarkedStateChange(b)).quickActionSheetState
         == state.quickActionSheetState.(bookmarked := b)
  {
  }

  /** A bounce request sets the bounce flag from any prior state and changes nothing else. */
  lemma BounceNeededSetsOnlyBounce(state: BrowserState)
    ensures Reduce(state, BounceNeededChange).quickActionSheetState.bounceNeeded
    ensures Reduce(state, BounceNeededChange).quickActionSheetState
         == state.quickActionSheetState.(bounceNeeded := true)
  {
  }

  /** No action clears the bounce flag once it is set. */
  lemma BounceNeededIsSticky(state: BrowserState, action: QuickActionSheetAction)
    requires state.quickActionSheetState.bounceNeeded
    ensures Reduce(state, action).quickActionSheetState.bounceNeeded
  {
  }

  /** Applying an action twice gives the state that applying it once gives. */
  lemma ReduceIdempotent(state: BrowserState, action: QuickActionSheetAction)
    ensures Reduce(Reduce(state, action), action) == Reduce(state, action)
  {
  }

  /** Actions on different flags commute. */
  lemma ReduceCommutes(state: BrowserState, a: QuickActionSheetAction, b: QuickActionSheetAction)
    requires Target(a) != Target(b)
    ensures Reduce(Reduce(state, a), b) == Reduce(Reduce(state, b), a)
  {
  }

  /** Of two actions on the same flag, the later one decides the state. */
  lemma ReduceOverwrites(state: BrowserState, a: QuickActionSheetAction, b: QuickActionSheetAction)
    requires Target(a) == Target(b)
    ensures Reduce(Reduce(state, a), b) == Reduce(state, b)
  {
  }

  // ---------------------------------------------------------------------------
  // A sequence of dispatched actions
  // ---------------------------------------------------------------------------

  /** The state a store reaches from `state` after the actions are dispatched in order. */
  function ReduceAll(state: BrowserState, actions: seq<BrowserAction>): BrowserState
    decreases |actions|
  {
    if actions == [] then state
    else ReduceAll(BrowserStateReducer(state, actions[0]), actions[1..])
  }

  /**
   * Reference definition: the payload of the LAST action in the sequence that
   * targets flag f, or `initial` when no action targets it.
   */
  function LastWrite(actions: seq<BrowserAction>, f: Flag, initial: bool): bool
    decreases |actions|
  {
    if actions == [] then initial
    else if Target(actions[|actions| - 1].action) == f then Payload(actions[|actions| - 1].action)
    else LastWrite(actions[..|actions| - 1], f, initial)
  }

  /** Dispatching one more action is one more reduction of the reached state. */
  lemma {:induction false} ReduceAllSnoc(state: BrowserState, actions: seq<BrowserAction>, a: BrowserAction)
    ensures ReduceAll(state, actions + [a]) == BrowserStateReducer(ReduceAll(state, actions), a)
    decreases |actions|
  {
    if actions == [] {
      assert [] + [a] == [a];
    } else {
      assert (actions + [a])[1..] == actions[1..] + [a];
      ReduceAllSnoc(BrowserStateReducer(state, actions[0]), actions[1..], a);
    }
  }

  /**
   * After any sequence of dispatches, each flag holds the payload of the last
   * action that targeted it, or its initial value if none did.
   */
  lemma {:induction false} ReduceAllLastWriteWins(state: BrowserState, actions: seq<BrowserAction>, f: Flag)
    ensures FlagValue(ReduceAll(state, actions), f) == LastWrite(actions, f, FlagValue(state, f))
    decreases |actions|
  {
    if actions != [] {
      var init, last := actions[..|actions| - 1], actions[|actions| - 1];
      assert actions == init + [last];
      ReduceAllSnoc(state, init, last);
      ReduceAllLastWriteWins(state, init, f);
    }
  }
}
