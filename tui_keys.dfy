/** The key bindings of internal/tui/keys.go: the board reacts to the name
    bubbletea gives a key press (`tea.KeyMsg.String()`), modelled here as
    that string. */
module Keys {

  datatype Action =
    | ActionNone
    | ActionQuit
    | ActionUp
    | ActionDown
    | ActionLeft
    | ActionRight
    | ActionReview
    | ActionUnreview
    | ActionIgnore
    | ActionExpand
    | ActionBack
    | ActionCopy
    | ActionNote

  /** The key names bound to an action, as a table read the other way round:
      from action to keys.  No key is bound to ActionNone. */
  function KeysFor(a: Action): set<string>
  {
    match a
    case ActionNone => {}
    case ActionQuit => {"q", "ctrl+c"}
    case ActionUp => {"k", "up"}
    case ActionDown => {"j", "down"}
    case ActionLeft => {"h", "left", "shift+tab"}
    case ActionRight => {"l", "right", "tab"}
    case ActionReview => {"r"}
    case ActionUnreview => {"u"}
    case ActionIgnore => {"i"}
    case ActionExpand => {"enter"}
    case ActionBack => {"esc"}
    case ActionCopy => {"c"}
    case ActionNote => {"n"}
  }

  /** Every key name with a binding. */
  const BoundKeys: set<string> :=
    {"q", "ctrl+c", "k", "up", "j", "down", "h", "left", "l", "right",
     "r", "u", "i", "enter", "esc", "c", "tab", "shift+tab", "n"}

  /** MapKey: the action of a key; unbound keys do nothing. */
  function MapKey(key: string): (a: Action)
    ensures a == ActionNone <==> key !in BoundKeys
    ensures a != ActionNone ==> key in KeysFor(a)
  {
    if key == "q" || key == "ctrl+c" then ActionQuit
    else if key == "k" || key == "up" then ActionUp
    else if key == "j" || key == "down" then ActionDown
    else if key == "h" || key == "left" then ActionLeft
    else if key == "l" || key == "right" then ActionRight
    else if key == "r" then ActionReview
    else if key == "u" then ActionUnreview
    else if key == "i" then ActionIgnore
    else if key == "enter" then ActionExpand
    else if key == "esc" then ActionBack
    else if key == "c" then ActionCopy
    else if key == "tab" then ActionRight
    else if key == "shift+tab" then ActionLeft
    else if key == "n" then ActionNote
    else ActionNone
  }

  /** Read from action to keys, the table gives back MapKey: every key bound
      to an action maps to exactly that action. */
  lemma KeysForInvertsMapKey(a: Action, key: string)
    requires key in KeysFor(a)
    ensures MapKey(key) == a
  {
  }

  /** The bound keys are exactly the keys of the actions other than None. */
  lemma BoundKeysAreKeysForActions(key: string)
    ensures key in BoundKeys <==> exists a :: key in KeysFor(a)
  {
    if key in BoundKeys {
      assert key in KeysFor(MapKey(key));
    }
  }

  /** No key is bound to two actions. */
  lemma KeysForDisjoint(a: Action, b: Action, key: string)
    requires key in KeysFor(a) && key in KeysFor(b)
    ensures a == b
  {
    KeysForInvertsMapKey(a, key);
    KeysForInvertsMapKey(b, key);
  }
}
