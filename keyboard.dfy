/**
 * Keyboard input: a buffer that the window system appends key events to,
 * swapped out once per frame, and a handler that folds each frame's events
 * into a map from keys to "is pressed", keeping the previous frame's map
 * for edge detection.
 */
module Keyboard {
  /** GLFW key codes. Only the five keys the game reads are named. */
  type Key = int

  const KeySpace: Key := 32
  const KeyRight: Key := 262
  const KeyLeft: Key := 263
  const KeyDown: Key := 264
  const KeyUp: Key := 265

  datatype Action = Release | Press | Repeat

  datatype KeyEvent = KeyEvent(key: Key, scancode: int, action: Action, mods: int)

  /** The capacity a fresh list is allocated with; appends may go past it. */
  const EventListCap: nat := 10

  /** The double-buffered event list: appended to by the callback, swapped out by Freeze. */
  class KeyEventList {
    var events: seq<KeyEvent>

    constructor ()
      ensures events == []
    {
      events := [];
    }

    /** Appends one event, whatever the current length. */
    method Callback(key: Key, scancode: int, action: Action, mods: int)
      modifies this
      ensures events == old(events) + [KeyEvent(key, scancode, action, mods)]
      ensures |events| == |old(events)| + 1
    {
      events := events + [KeyEvent(key, scancode, action, mods)];
    }

    /** Hands out the events gathered since the last freeze and starts a new, empty list. */
    method Freeze() returns (frozen: seq<KeyEvent>)
      modifies this
      ensures frozen == old(events)
      ensures events == []
    {
      frozen := events;
      events := [];
    }
  }

  /**
   * A frozen snapshot is a value of its own: events that arrive after the
   * freeze go into the new list and never into the snapshot.
   */
  method FreezeThenCallback(list: KeyEventList, e: KeyEvent) returns (frozen: seq<KeyEvent>)
    modifies list
    ensures frozen == old(list.events)
    ensures list.events == [e]
  {
    frozen := list.Freeze();
    list.Callback(e.key, e.scancode, e.action, e.mods);
  }

  /** Reading a key that is absent from the map gives Go's zero value, false. */
  function Lookup(state: map<Key, bool>, key: Key): bool {
    key in state && state[key]
  }

  /** setState: Press records the key as down, Release as up, anything else changes nothing. */
  function SetState(state: map<Key, bool>, key: Key, action: Action): (m: map<Key, bool>)
    ensures action == Repeat ==> m == state
    ensures action != Repeat ==> key in m && m[key] == (action == Press)
    ensures forall k :: k != key ==> (k in m <==> k in state) && (k in m ==> m[k] == state[k])
  {
    match action
    case Press => state[key := true]
    case Release => state[key := false]
    case Repeat => state
  }

  /** process: the events applied one after another, in arrival order. */
  function Replay(state: map<Key, bool>, events: seq<KeyEvent>): map<Key, bool>
    decreases |events|
  {
    if events == [] then state
    else Replay(SetState(state, events[0].key, events[0].action), events[1..])
  }

  lemma {:induction false} ReplaySnoc(state: map<Key, bool>, events: seq<KeyEvent>, e: KeyEvent)
    ensures Replay(state, events + [e]) == SetState(Replay(state, events), e.key, e.action)
    decreases |events|
  {
    if events == [] {
      assert events + [e] == [e];
      assert [e][1..] == [];
    } else {
      assert (events + [e])[1..] == events[1..] + [e];
      ReplaySnoc(SetState(state, events[0].key, events[0].action), events[1..], e);
    }
  }

  lemma {:induction false} ReplayAppend(state: map<Key, bool>, a: seq<KeyEvent>, b: seq<KeyEvent>)
    ensures Replay(state, a + b) == Replay(Replay(state, a), b)
    decreases |a|
  {
    if a == [] {
      assert a + b == b;
    } else {
      assert (a + b)[1..] == a[1..] + b;
      ReplayAppend(SetState(state, a[0].key, a[0].action), a[1..], b);
    }
  }

  /** A key that no Press or Release event names keeps its entry, or its absence. */
  lemma {:induction false} ReplayKeepsUntouchedKey(state: map<Key, bool>, events: seq<KeyEvent>, key: Key)
    requires forall i :: 0 <= i < |events| && events[i].key == key ==> events[i].action == Repeat
    ensures (key in Replay(state, events) <==> key in state)
    ensures key in state ==> Replay(state, events)[key] == state[key]
    decreases |events|
  {
    if events != [] {
      ReplayKeepsUntouchedKey(SetState(state, events[0].key, events[0].action), events[1..], key);
    }
  }

  /** The last Press or Release event for a key decides whether it reads as pressed. */
  lemma LastEventDecides(state: map<Key, bool>, events: seq<KeyEvent>, i: nat)
    requires i < |events| && events[i].action != Repeat
    requires forall j :: i < j < |events| && events[j].key == events[i].key ==> events[j].action == Repeat
    ensures Lookup(Replay(state, events), events[i].key) == (events[i].action == Press)
  {
    var e := events[i];
    assert events == events[..i] + [e] + events[i + 1..];
    ReplayAppend(state, events[..i] + [e], events[i + 1..]);
    ReplaySnoc(state, events[..i], e);
    var mid := Replay(state, events[..i] + [e]);
    var rest := events[i + 1..];
    forall j | 0 <= j < |rest| && rest[j].key == e.key
      ensures rest[j].action == Repeat
    {
      assert rest[j] == events[i + 1 + j];
    }
    ReplayKeepsUntouchedKey(mid, rest, e.key);
  }

  /** Starting from an empty map, a key that was never pressed in the frame reads as released. */
  lemma {:induction false} UnpressedKeyReadsReleased(state: map<Key, bool>, events: seq<KeyEvent>, key: Key)
    requires !Lookup(state, key)
    requires forall i :: 0 <= i < |events| && events[i].key == key ==> events[i].action != Press
    ensures !Lookup(Replay(state, events), key)
    decreases |events|
  {
    if events != [] {
      UnpressedKeyReadsReleased(SetState(state, events[0].key, events[0].action), events[1..], key);
    }
  }

  class Handler {
    /** Which keys are pressed in this frame, and in the frame before. */
    var state: map<Key, bool>
    var previousState: map<Key, bool>
    var keyEventList: KeyEventList?

    /** The handler NewHandler builds: both maps empty and a fresh, empty event list. */
    constructor ()
      ensures state == map[] && previousState == map[]
      ensures keyEventList != null && fresh(keyEventList) && keyEventList.events == []
    {
      state := map[];
      previousState := map[];
      keyEventList := new KeyEventList();
    }

    method SetKeyState(key: Key, action: Action)
      modifies this
      ensures state == SetState(old(state), key, action)
      ensures previousState == old(previousState) && keyEventList == old(keyEventList)
    {
      match action {
        case Press => state := state[key := true];
        case Release => state := state[key := false];
        case Repeat =>
      }
    }

    method Process(events: seq<KeyEvent>)
      modifies this
      ensures state == Replay(old(state), events)
      ensures previousState == old(previousState) && keyEventList == old(keyEventList)
    {
      var i := 0;
      while i < |events|
        invariant 0 <= i <= |events|
        invariant state == Replay(old(state), events[..i])
        invariant previousState == old(previousState) && keyEventList == old(keyEventList)
      {
        ReplaySnoc(old(state), events[..i], events[i]);
        assert events[..i + 1] == events[..i] + [events[i]];
        SetKeyState(events[i].key, events[i].action);
        i := i + 1;
      }
      assert events[..i] == events;
    }

    /** The callback handed to the window: the event list's own Callback, or nil without a list. */
    method GetCallback() returns (callback: KeyEventList?)
      ensures callback == keyEventList
      ensures callback == null <==> keyEventList == null
    {
      if keyEventList == null {
        return null;
      }
      return keyEventList;
    }

    /**
     * The per-frame update: the current map becomes the previous one and the
     * current map is rebuilt from nothing but this frame's events.
     */
    method Update()
      requires keyEventList != null
      modifies this, keyEventList
      ensures previousState == old(state)
      ensures state == Replay(map[], old(keyEventList.events))
      ensures keyEventList == old(keyEventList) && keyEventList.events == []
    {
      previousState, state := state, map[];
      var keyEvents := keyEventList.Freeze();
      Process(keyEvents);
    }

    function IsKeyDown(key: Key): bool
      reads this
    {
      Lookup(state, key)
    }

    function WasKeyDown(key: Key): bool
      reads this
    {
      Lookup(previousState, key)
    }

    function LeftPressed(): bool reads this { IsKeyDown(KeyLeft) }
    function RightPressed(): bool reads this { IsKeyDown(KeyRight) }
    function UpPressed(): bool reads this { IsKeyDown(KeyUp) }
    function DownPressed(): bool reads this { IsKeyDown(KeyDown) }
    function SpacePressed(): bool reads this { IsKeyDown(KeySpace) }

    function WasLeftPressed(): bool reads this { WasKeyDown(KeyLeft) }
    function WasRightPressed(): bool reads this { WasKeyDown(KeyRight) }
    function WasUpPressed(): bool reads this { WasKeyDown(KeyUp) }
    function WasDownPressed(): bool reads this { WasKeyDown(KeyDown) }
    function WasSpacePressed(): bool reads this { WasKeyDown(KeySpace) }
  }

  /** NewHandler: a new handler together with the callback to register with the window. */
  method NewHandler() returns (h: Handler, callback: KeyEventList?)
    ensures fresh(h) && h.state == map[] && h.previousState == map[]
    ensures callback != null && callback == h.keyEventList && callback.events == []
  {
    h := new Handler();
    callback := h.GetCallback();
  }
}
