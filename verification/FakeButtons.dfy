/** The first mouse button taken for the second or third while their modifiers are held, and the event queue of
    keys and buttons as a whole. */
module FakeButtons {
  import opened Options
  import opened Bits
  import opened ModifierKeys

  /** The preferences: whether to fake buttons, and the modifiers that stand for buttons 2 and 3. */
  datatype Fakes = Fakes(on: bool, mouse2: Mask, mouse3: Mask)

  /** down is the fake button held, zero for none. */
  datatype State = State(flags: Mask, down: int, events: seq<Event>)

  function Updated(codes: Codes, list: seq<Bit>, s: State, flags: Mask): State {
    s.(flags := flags, events := s.events + ModKeys(codes, list, s.flags, flags))
  }

  function Queued(s: State, kind: PointerKind, button: int): State {
    s.(events := s.events + [Pointer(kind, button)])
  }

  function FakeReleased(s: State): State {
    if s.down == 0 then s else Queued(s, ButtonRelease, s.down).(down := 0)
  }

  function FirstPressed(codes: Codes, list: seq<Bit>, fakes: Fakes, s: State): State {
    var r := FakeReleased(s);
    if r.flags * fakes.mouse2 != {} then
      Queued(Updated(codes, list, r, r.flags - fakes.mouse2), ButtonPress, 2).(down := 2)
    else if r.flags * fakes.mouse3 != {} then
      Queued(Updated(codes, list, r, r.flags - fakes.mouse3), ButtonPress, 3).(down := 3)
    else Queued(r, ButtonPress, 1)
  }

  function FirstReleased(codes: Codes, list: seq<Bit>, fakes: Fakes, s: State): State {
    var t := if s.down == 2 then Updated(codes, list, s, s.flags - fakes.mouse2)
             else if s.down == 3 then Updated(codes, list, s, s.flags - fakes.mouse3)
             else s;
    Queued(t, ButtonRelease, if s.down != 0 then s.down else 1).(down := 0)
  }

  /** DarwinSendPointerEvents. */
  function PointerSent(codes: Codes, list: seq<Bit>, fakes: Fakes, s: State, kind: PointerKind, button: int): State {
    if kind == ButtonPress && fakes.on && button == 1 then FirstPressed(codes, list, fakes, s)
    else if kind == ButtonRelease && button == 1 then FirstReleased(codes, list, fakes, s)
    else Queued(s, kind, button)
  }

  // ---------------------------------------------------------------- what every step keeps

  /** The events show the flags for every modifier whose key has a keycode of its own. */
  ghost predicate KeysShown(codes: Codes, list: seq<Bit>, s: State) {
    forall m {:trigger Shows(s.events, codes, m, s.flags)} ::
      m in list && Alone(codes, list, m) ==> Shows(s.events, codes, m, s.flags)
  }

  lemma {:induction false} KeysOnly(codes: Codes, press: bool, changed: Mask, list: seq<Bit>, button: int)
    ensures Silent(Emitted(codes, press, changed, list), ButtonSwitch(button))
  {
    if list != [] {
      KeysOnly(codes, press, changed, list[1..], button);
    }
  }

  lemma UpdatedButtons(codes: Codes, list: seq<Bit>, s: State, flags: Mask, button: int)
    ensures var t, sw := Updated(codes, list, s, flags), ButtonSwitch(button);
            Alternates(t.events, sw) == Alternates(s.events, sw) && Down(t.events, sw) == Down(s.events, sw)
  {
    KeysOnly(codes, false, (s.flags - flags) * MaskOf(list), list, button);
    KeysOnly(codes, true, (flags - s.flags) * MaskOf(list), list, button);
    SilentKeeps(s.events, ModKeys(codes, list, s.flags, flags), ButtonSwitch(button));
  }

  lemma UpdatedKeys(codes: Codes, list: seq<Bit>, s: State, flags: Mask)
    requires Proper(list) && KeysShown(codes, list, s)
    ensures KeysShown(codes, list, Updated(codes, list, s, flags))
  {
    var t := Updated(codes, list, s, flags);
    forall m | m in list && Alone(codes, list, m) ensures Shows(t.events, codes, m, t.flags) {
      assert Shows(s.events, codes, m, s.flags);
      UpdateShows(s.events, codes, list, m, s.flags, flags);
    }
  }

  lemma QueuedKeys(codes: Codes, list: seq<Bit>, s: State, kind: PointerKind, button: int, down: int)
    requires KeysShown(codes, list, s)
    ensures KeysShown(codes, list, Queued(s, kind, button).(down := down))
  {
    var t := Queued(s, kind, button);
    forall m | m in list && Alone(codes, list, m) ensures Shows(t.events, codes, m, t.flags) {
      assert Shows(s.events, codes, m, s.flags);
      SilentKeeps(s.events, [Pointer(kind, button)], SwitchOf(codes, m));
    }
  }

  // ---------------------------------------------------------------- runs

  datatype Input =
    | Flags(flags: Mask)
    | Mouse(fakes: Fakes, kind: PointerKind, button: int)

  function Step(codes: Codes, list: seq<Bit>, s: State, i: Input): State {
    match i
    case Flags(flags) => Updated(codes, list, s, flags)
    case Mouse(fakes, kind, button) => PointerSent(codes, list, fakes, s, kind, button)
  }

  function Run(codes: Codes, list: seq<Bit>, inputs: seq<Input>): State {
    if inputs == [] then State({}, 0, [])
    else Step(codes, list, Run(codes, list, inputs[..|inputs| - 1]), inputs[|inputs| - 1])
  }

  lemma StepKeys(codes: Codes, list: seq<Bit>, s: State, i: Input)
    requires Proper(list) && KeysShown(codes, list, s)
    ensures KeysShown(codes, list, Step(codes, list, s, i))
  {
    match i {
      case Flags(flags) => UpdatedKeys(codes, list, s, flags);
      case Mouse(fakes, kind, button) =>
        if kind == ButtonPress && fakes.on && button == 1 {
          PressedKeys(codes, list, fakes, s);
        } else if kind == ButtonRelease && button == 1 {
          ReleasedKeys(codes, list, fakes, s);
        } else {
          QueuedKeys(codes, list, s, kind, button, s.down);
        }
    }
  }

  lemma PressedKeys(codes: Codes, list: seq<Bit>, fakes: Fakes, s: State)
    requires Proper(list) && KeysShown(codes, list, s)
    ensures KeysShown(codes, list, FirstPressed(codes, list, fakes, s))
  {
    var r := FakeReleased(s);
    QueuedKeys(codes, list, s, ButtonRelease, s.down, 0);
    assert KeysShown(codes, list, r);
    UpdatedKeys(codes, list, r, r.flags - fakes.mouse2);
    UpdatedKeys(codes, list, r, r.flags - fakes.mouse3);
    QueuedKeys(codes, list, Updated(codes, list, r, r.flags - fakes.mouse2), ButtonPress, 2, 2);
    QueuedKeys(codes, list, Updated(codes, list, r, r.flags - fakes.mouse3), ButtonPress, 3, 3);
    QueuedKeys(codes, list, r, ButtonPress, 1, 0);
    assert r.down == 0;
  }

  lemma ReleasedKeys(codes: Codes, list: seq<Bit>, fakes: Fakes, s: State)
    requires Proper(list) && KeysShown(codes, list, s)
    ensures KeysShown(codes, list, FirstReleased(codes, list, fakes, s))
  {
    UpdatedKeys(codes, list, s, s.flags - fakes.mouse2);
    UpdatedKeys(codes, list, s, s.flags - fakes.mouse3);
    var t := if s.down == 2 then Updated(codes, list, s, s.flags - fakes.mouse2)
             else if s.down == 3 then Updated(codes, list, s, s.flags - fakes.mouse3)
             else s;
    QueuedKeys(codes, list, t, ButtonRelease, if s.down != 0 then s.down else 1, 0);
  }

  /** Over every run of flag changes and pointer events the key events show the flags. */
  lemma {:induction false} RunKeys(codes: Codes, list: seq<Bit>, inputs: seq<Input>)
    requires Proper(list)
    ensures KeysShown(codes, list, Run(codes, list, inputs))
  {
    if inputs != [] {
      var before := inputs[..|inputs| - 1];
      RunKeys(codes, list, before);
      StepKeys(codes, list, Run(codes, list, before), inputs[|inputs| - 1]);
    }
  }

  // ---------------------------------------------------------------- what the server sees of a button

  /** Whether a button was pressed and released in turn so far, and whether it is down. */
  function Track(s: State, button: int): (bool, bool) {
    (Alternates(s.events, ButtonSwitch(button)), Down(s.events, ButtonSwitch(button)))
  }

  function Turned(t: (bool, bool), kind: PointerKind, evButton: int, button: int): (bool, bool) {
    var turn := Turn(Pointer(kind, evButton), ButtonSwitch(button));
    if turn.None? then t else (t.0 && turn.value != t.1, turn.value)
  }

  lemma QueuedTrack(s: State, kind: PointerKind, evButton: int, button: int)
    ensures Track(Queued(s, kind, evButton), button) == Turned(Track(s, button), kind, evButton, button)
  {
    if Turn(Pointer(kind, evButton), ButtonSwitch(button)).Some? {
      OneMore(s.events, Pointer(kind, evButton), ButtonSwitch(button));
    } else {
      SilentKeeps(s.events, [Pointer(kind, evButton)], ButtonSwitch(button));
    }
  }

  /** The button a press of the first one is taken for. */
  function Faked(fakes: Fakes, flags: Mask): int {
    if !fakes.on then 1
    else if flags * fakes.mouse2 != {} then 2
    else if flags * fakes.mouse3 != {} then 3
    else 1
  }

  lemma PressedTrack(codes: Codes, list: seq<Bit>, fakes: Fakes, s: State, button: int)
    requires fakes.on
    ensures var t, shown := FirstPressed(codes, list, fakes, s), Faked(fakes, s.flags);
            && t.down == (if shown == 1 then 0 else shown)
            && Track(t, button) ==
               Turned(if s.down == 0 then Track(s, button) else Turned(Track(s, button), ButtonRelease, s.down, button),
                      ButtonPress, shown, button)
  {
    var r := FakeReleased(s);
    QueuedTrack(s, ButtonRelease, s.down, button);
    assert Track(r, button) == if s.down == 0 then Track(s, button)
                               else Turned(Track(s, button), ButtonRelease, s.down, button);
    var shown := Faked(fakes, s.flags);
    if shown == 1 {
      QueuedTrack(r, ButtonPress, 1, button);
    } else {
      var flags := r.flags - if shown == 2 then fakes.mouse2 else fakes.mouse3;
      UpdatedButtons(codes, list, r, flags, button);
      QueuedTrack(Updated(codes, list, r, flags), ButtonPress, shown, button);
    }
  }

  lemma ReleasedTrack(codes: Codes, list: seq<Bit>, fakes: Fakes, s: State, button: int)
    ensures var t := FirstReleased(codes, list, fakes, s);
            t.down == 0 &&
            Track(t, button) == Turned(Track(s, button), ButtonRelease, if s.down != 0 then s.down else 1, button)
  {
    UpdatedButtons(codes, list, s, s.flags - fakes.mouse2, button);
    UpdatedButtons(codes, list, s, s.flags - fakes.mouse3, button);
    var t := if s.down == 2 then Updated(codes, list, s, s.flags - fakes.mouse2)
             else if s.down == 3 then Updated(codes, list, s, s.flags - fakes.mouse3)
             else s;
    QueuedTrack(t, ButtonRelease, if s.down != 0 then s.down else 1, button);
  }

  /** What an input makes of a button for the server, shown being what a press of the first one is taken for. */
  function Moved(t: (bool, bool), down: int, i: Input, shown: int, button: int): (bool, bool) {
    if i.Flags? then t
    else if i.kind == ButtonPress && i.fakes.on && i.button == 1 then
      Turned(if down == 0 then t else Turned(t, ButtonRelease, down, button), ButtonPress, shown, button)
    else if i.kind == ButtonRelease && i.button == 1 then
      Turned(t, ButtonRelease, if down != 0 then down else 1, button)
    else Turned(t, i.kind, i.button, button)
  }

  function DownAfter(down: int, i: Input, shown: int): int {
    if i.Flags? || i.kind == MotionNotify || i.button != 1 then down
    else if i.kind == ButtonRelease then 0
    else if !i.fakes.on then down
    else if shown == 1 then 0 else shown
  }

  function ShownAs(i: Input, flags: Mask): (shown: int)
    ensures 1 <= shown <= 3
  {
    if i.Flags? then 1 else Faked(i.fakes, flags)
  }

  lemma StepTrack(codes: Codes, list: seq<Bit>, s: State, i: Input, button: int)
    ensures var t, shown := Step(codes, list, s, i), ShownAs(i, s.flags);
            && Track(t, button) == Moved(Track(s, button), s.down, i, shown, button)
            && t.down == DownAfter(s.down, i, shown)
  {
    match i {
      case Flags(flags) => UpdatedButtons(codes, list, s, flags, button);
      case Mouse(fakes, kind, evButton) =>
        if kind == ButtonPress && fakes.on && evButton == 1 {
          PressedTrack(codes, list, fakes, s, button);
        } else if kind == ButtonRelease && evButton == 1 {
          ReleasedTrack(codes, list, fakes, s, button);
        } else {
          QueuedTrack(s, kind, evButton, button);
        }
    }
  }

  // ---------------------------------------------------------------- real buttons

  /** Whether the input presses or releases the real button. */
  predicate Moves(i: Input, button: int) {
    i.Mouse? && i.kind != MotionNotify && i.button == button
  }

  /** Whether the real button is held after the inputs. */
  function Held(inputs: seq<Input>, button: int): bool {
    if inputs == [] then false else
      var last := inputs[|inputs| - 1];
      if Moves(last, button) then last.kind == ButtonPress else Held(inputs[..|inputs| - 1], button)
  }

  /** A real button is pressed when up and released when held. */
  predicate Real(inputs: seq<Input>, button: int) {
    inputs == [] ||
    var before, last := inputs[..|inputs| - 1], inputs[|inputs| - 1];
    Real(before, button) && (Moves(last, button) ==> (last.kind == ButtonPress <==> !Held(before, button)))
  }

  /** The input presses the button while it is down already: the real one while it is faked, or a first button taken
      for it while the real one is held. */
  predicate Clashes(s: State, i: Input, held: bool, button: int) {
    i.Mouse? && i.kind == ButtonPress &&
    ((i.button == button && s.down == button) || (i.button == 1 && held && Faked(i.fakes, s.flags) == button))
  }

  predicate Clean(codes: Codes, list: seq<Bit>, inputs: seq<Input>, button: int) {
    inputs == [] ||
    var before, last := inputs[..|inputs| - 1], inputs[|inputs| - 1];
    Clean(codes, list, before, button) && !Clashes(Run(codes, list, before), last, Held(before, button), button)
  }

  /** The button is down for the server while the real one is held or it is faked, never both at once. */
  predicate Shared(s: State, held: bool, button: int) {
    Track(s, button) == (true, held || s.down == button) && !(held && s.down == button)
  }

  /** The first button is down for the server while the real one is held and not taken for another. */
  predicate FirstMatches(s: State, held: bool) {
    Track(s, 1) == (true, held && s.down == 0) && (!held ==> s.down == 0)
  }

  predicate Faking(down: int) {
    down == 0 || down == 2 || down == 3
  }

  lemma MovedShared(t: (bool, bool), down: int, i: Input, shown: int, held: bool, button: int)
    requires Faking(down) && 1 <= shown <= 3 && button != 0 && button != 1
    requires t == (true, held || down == button) && !(held && down == button)
    requires Moves(i, button) ==> (i.kind == ButtonPress <==> !held)
    requires i.Mouse? && !i.fakes.on ==> shown == 1
    ensures var u, after := Moved(t, down, i, shown, button), DownAfter(down, i, shown);
            var still := if Moves(i, button) then !held else held;
            if i.Mouse? && i.kind == ButtonPress &&
               ((i.button == button && down == button) || (i.button == 1 && held && shown == button))
            then !u.0
            else u == (true, still || after == button) && !(still && after == button)
  {
  }

  lemma StepShared(codes: Codes, list: seq<Bit>, s: State, i: Input, held: bool, button: int)
    requires Faking(s.down) && Shared(s, held, button) && button != 0 && button != 1
    requires Moves(i, button) ==> (i.kind == ButtonPress <==> !held)
    ensures var t := Step(codes, list, s, i);
            if Clashes(s, i, held, button) then !Track(t, button).0
            else Shared(t, if Moves(i, button) then !held else held, button)
  {
    StepTrack(codes, list, s, i, button);
    MovedShared(Track(s, button), s.down, i, ShownAs(i, s.flags), held, button);
  }

  lemma MovedFirst(t: (bool, bool), down: int, i: Input, shown: int, held: bool)
    requires Faking(down) && 1 <= shown <= 3 && t == (true, held && down == 0) && (!held ==> down == 0)
    requires Moves(i, 1) ==> (i.kind == ButtonPress <==> !held)
    ensures var u, after := Moved(t, down, i, shown, 1), DownAfter(down, i, shown);
            var still := if Moves(i, 1) then !held else held;
            u == (true, still && after == 0) && (!still ==> after == 0)
  {
  }

  lemma StepFirst(codes: Codes, list: seq<Bit>, s: State, i: Input, held: bool)
    requires Faking(s.down) && FirstMatches(s, held) && (Moves(i, 1) ==> (i.kind == ButtonPress <==> !held))
    ensures FirstMatches(Step(codes, list, s, i), if Moves(i, 1) then !held else held)
  {
    StepTrack(codes, list, s, i, 1);
    MovedFirst(Track(s, 1), s.down, i, ShownAs(i, s.flags), held);
  }

  lemma {:induction false} RunFaking(codes: Codes, list: seq<Bit>, inputs: seq<Input>)
    ensures Faking(Run(codes, list, inputs).down)
  {
    if inputs != [] {
      var before := inputs[..|inputs| - 1];
      RunFaking(codes, list, before);
      StepTrack(codes, list, Run(codes, list, before), inputs[|inputs| - 1], 1);
    }
  }

  /** Whatever the other buttons do, one that is not the first is pressed and released in turn for the server exactly
      when no input clashes: when it is never pressed while faked, and never faked while held. It is then down
      exactly while held or faked. */
  lemma {:induction false} RunButtons(codes: Codes, list: seq<Bit>, inputs: seq<Input>, button: int)
    requires Real(inputs, button) && button != 0 && button != 1
    ensures Alternates(Run(codes, list, inputs).events, ButtonSwitch(button)) <==> Clean(codes, list, inputs, button)
    ensures Clean(codes, list, inputs, button) ==> Shared(Run(codes, list, inputs), Held(inputs, button), button)
  {
    if inputs != [] {
      var before, last := inputs[..|inputs| - 1], inputs[|inputs| - 1];
      var s := Run(codes, list, before);
      RunButtons(codes, list, before, button);
      RunFaking(codes, list, before);
      if Clean(codes, list, before, button) {
        StepShared(codes, list, s, last, Held(before, button), button);
      } else {
        StepTrack(codes, list, s, last, button);
      }
    }
  }

  /** The first button always is, and it is down exactly while held and not taken for another. */
  lemma {:induction false} RunFirst(codes: Codes, list: seq<Bit>, inputs: seq<Input>)
    requires Real(inputs, 1)
    ensures FirstMatches(Run(codes, list, inputs), Held(inputs, 1))
  {
    if inputs != [] {
      var before, last := inputs[..|inputs| - 1], inputs[|inputs| - 1];
      RunFirst(codes, list, before);
      RunFaking(codes, list, before);
      StepFirst(codes, list, Run(codes, list, before), last, Held(before, 1));
    }
  }

  /** Without real presses of its own a faked button never clashes. */
  lemma {:induction false} UnusedClean(codes: Codes, list: seq<Bit>, inputs: seq<Input>, button: int)
    requires forall i :: 0 <= i < |inputs| ==> !Moves(inputs[i], button)
    ensures Real(inputs, button) && !Held(inputs, button)
    ensures button != 1 ==> Clean(codes, list, inputs, button)
  {
    if inputs != [] {
      UnusedClean(codes, list, inputs[..|inputs| - 1], button);
    }
  }

  function Count(a: bool, b: bool, c: bool): nat {
    (if a then 1 else 0) + (if b then 1 else 0) + (if c then 1 else 0)
  }

  function DownCount(h: seq<Event>): nat {
    Count(Down(h, ButtonSwitch(1)), Down(h, ButtonSwitch(2)), Down(h, ButtonSwitch(3)))
  }

  /** While nothing clashes the server sees as many of the three buttons down as are held. */
  lemma AsManyDown(codes: Codes, list: seq<Bit>, inputs: seq<Input>)
    requires Real(inputs, 1) && Real(inputs, 2) && Real(inputs, 3)
    requires Clean(codes, list, inputs, 2) && Clean(codes, list, inputs, 3)
    ensures DownCount(Run(codes, list, inputs).events) == Count(Held(inputs, 1), Held(inputs, 2), Held(inputs, 3))
  {
    RunFaking(codes, list, inputs);
    RunFirst(codes, list, inputs);
    RunButtons(codes, list, inputs, 2);
    RunButtons(codes, list, inputs, 3);
  }

  /** So of a mouse with one button the server sees one down while it is held, and none when it is not. */
  lemma OneDown(codes: Codes, list: seq<Bit>, inputs: seq<Input>)
    requires Real(inputs, 1) && forall i :: 0 <= i < |inputs| ==> !Moves(inputs[i], 2) && !Moves(inputs[i], 3)
    ensures DownCount(Run(codes, list, inputs).events) == if Held(inputs, 1) then 1 else 0
  {
    UnusedClean(codes, list, inputs, 2);
    UnusedClean(codes, list, inputs, 3);
    AsManyDown(codes, list, inputs);
  }

  /** When a fake button goes down, the keys that stand for it are up. */
  lemma FakedKeysUp(codes: Codes, list: seq<Bit>, fakes: Fakes, s: State, mask: Bit)
    requires Proper(list) && KeysShown(codes, list, s)
    requires mask in list && Alone(codes, list, mask) && mask != NX_ALPHASHIFTMASK
    ensures var t := FirstPressed(codes, list, fakes, s);
            mask in (if t.down == 2 then fakes.mouse2 else if t.down == 3 then fakes.mouse3 else {}) ==>
              !Down(t.events, SwitchOf(codes, mask))
  {
    PressedKeys(codes, list, fakes, s);
    var t := FirstPressed(codes, list, fakes, s);
    assert Shows(t.events, codes, mask, t.flags);
  }

  /** So they are when it is released again, whatever was pressed meanwhile. */
  lemma FakedKeysStayUp(codes: Codes, list: seq<Bit>, fakes: Fakes, s: State, mask: Bit)
    requires Proper(list) && KeysShown(codes, list, s)
    requires mask in list && Alone(codes, list, mask) && mask != NX_ALPHASHIFTMASK
    requires mask in (if s.down == 2 then fakes.mouse2 else if s.down == 3 then fakes.mouse3 else {})
    ensures var t := Step(codes, list, s, Mouse(fakes, ButtonRelease, 1));
            mask !in t.flags && !Down(t.events, SwitchOf(codes, mask))
  {
    var t := FirstReleased(codes, list, fakes, s);
    ReleasedKeys(codes, list, fakes, s);
    assert Shows(t.events, codes, mask, t.flags);
  }

  /** What is left of a state when some flags are taken from it, and then a button does something. */
  predicate Goes(codes: Codes, list: seq<Bit>, s: State, first: seq<Event>, taken: Mask, e: Event, down: int, t: State)
  {
    t == State(s.flags - taken, down, s.events + first + ModKeys(codes, list, s.flags, s.flags - taken) + [e])
  }

  /** A press of the first button while buttons are faked: a button still faked goes up first; then, if a modifier for
      the second, or else for the third, is set, its modifiers go up and that button goes down in place of the first. */
  lemma FirstGoesDown(codes: Codes, list: seq<Bit>, fakes: Fakes, s: State)
    requires fakes.on
    ensures var t := Step(codes, list, s, Mouse(fakes, ButtonPress, 1));
            var first := if s.down == 0 then [] else [Pointer(ButtonRelease, s.down)];
            if exists m :: m in s.flags && m in fakes.mouse2 then
              Goes(codes, list, s, first, fakes.mouse2, Pointer(ButtonPress, 2), 2, t)
            else if exists m :: m in s.flags && m in fakes.mouse3 then
              Goes(codes, list, s, first, fakes.mouse3, Pointer(ButtonPress, 3), 3, t)
            else t == State(s.flags, 0, s.events + first + [Pointer(ButtonPress, 1)])
  {
    assert s.events + [] == s.events;
    Meet(s.flags, fakes.mouse2);
    Meet(s.flags, fakes.mouse3);
  }

  lemma Meet(a: Mask, b: Mask)
    ensures a * b != {} <==> exists m :: m in a && m in b
  {
    if m :| m in a && m in b {
      assert m in a * b;
    }
  }

  /** A release of the first button: the button faked, if one is, goes up in its place, after its modifiers. */
  lemma FirstGoesUp(codes: Codes, list: seq<Bit>, fakes: Fakes, s: State)
    requires Faking(s.down)
    ensures var t := Step(codes, list, s, Mouse(fakes, ButtonRelease, 1));
            if s.down == 0 then t == State(s.flags, 0, s.events + [Pointer(ButtonRelease, 1)])
            else Goes(codes, list, s, [], if s.down == 2 then fakes.mouse2 else fakes.mouse3,
                      Pointer(ButtonRelease, s.down), 0, t)
  {
    assert s.events + [] == s.events;
  }

  /** Every other input: new flags are taken over with their key events, and all else of the mouse goes on as it is. */
  lemma OthersGoOn(codes: Codes, list: seq<Bit>, s: State, i: Input)
    requires i.Mouse? ==> i.button != 1 || i.kind == MotionNotify || (i.kind == ButtonPress && !i.fakes.on)
    ensures Step(codes, list, s, i) ==
            if i.Flags? then State(i.flags, s.down, s.events + ModKeys(codes, list, s.flags, i.flags))
            else State(s.flags, s.down, s.events + [Pointer(i.kind, i.button)])
  {
  }

  // ---------------------------------------------------------------- the event source

  class Darwin {
    const keyInfo: Keymap
    const maskList: seq<Bit>
    var x11ModifierMask: Mask
    var allModifierMask: Mask
    var allModifierFlags: Mask
    var fakeMouseButtonDown: int
    var fakes: Fakes
    /** What was queued for the server. */
    var events: seq<Event>

    predicate Valid()
      reads this`x11ModifierMask, this`fakeMouseButtonDown
    {
      && Proper(maskList) && x11ModifierMask == MaskOf(maskList)
      && (fakeMouseButtonDown == 0 || fakeMouseButtonDown == 2 || fakeMouseButtonDown == 3)
    }

    function View(): State
      reads this
    {
      State(allModifierFlags, fakeMouseButtonDown, events)
    }

    /** DarwinEQInit: the masks are put together from the list. */
    constructor (keyInfo: Keymap, maskList: seq<Bit>, fakes: Fakes)
      requires Proper(maskList)
      ensures Valid() && View() == State({}, 0, []) && this.keyInfo == keyInfo && this.maskList == maskList
      ensures this.fakes == fakes && allModifierMask == MaskOf(maskList) + {NX_SECONDARYFNMASK}
    {
      this.keyInfo, this.maskList, this.fakes := keyInfo, maskList, fakes;
      allModifierFlags, fakeMouseButtonDown, events := {}, 0, [];
      var mask: Mask := {};
      for i := 0 to |maskList|
        invariant mask == MaskOf(maskList[..i])
      {
        assert maskList[..i + 1] == maskList[..i] + [maskList[i]];
        mask := mask + {maskList[i]};
      }
      assert maskList[..|maskList|] == maskList;
      x11ModifierMask := mask;
      allModifierMask := mask + {NX_SECONDARYFNMASK};
    }

    /** DarwinPressModifierKey and DarwinSendKeyboardEvents. */
    method PressModifierKey(press: bool, key: NXKey)
      modifies this`events
      ensures events == old(events) + if keyInfo(key) == 0 then [] else [Key(press, keyInfo(key) + MIN_KEYCODE)]
    {
      var keycode := keyInfo(key);
      if keycode == 0 {
        return;
      }
      events := events + [Key(press, keycode + MIN_KEYCODE)];
    }

    method PressModifier(press: bool, mask: Bit)
      modifies this`events
      ensures events == old(events) + Pressed(CodesOf(keyInfo), press, mask)
    {
      var key := MaskToNXKey(mask);
      if key.Some? {
        PressModifierKey(press, key.value);
      }
    }

    method UpdateModifiers(press: bool, flags: Mask)
      modifies this`events
      ensures events == old(events) + Modifiers(CodesOf(keyInfo), maskList, press, flags)
    {
      PressLock(press, flags);
      PressListed(press, flags);
    }

    /** A change of the lock flag is a press and a release, whichever way it goes. */
    method PressLock(press: bool, flags: Mask)
      modifies this`events
      ensures events == old(events) + Own(CodesOf(keyInfo), press, flags, NX_ALPHASHIFTMASK)
    {
      if NX_ALPHASHIFTMASK in flags {
        PressModifier(true, NX_ALPHASHIFTMASK);
        PressModifier(false, NX_ALPHASHIFTMASK);
      }
    }

    method PressListed(press: bool, flags: Mask)
      modifies this`events
      ensures events == old(events) + Emitted(CodesOf(keyInfo), press, flags, maskList)
    {
      for i := 0 to |maskList|
        invariant events == old(events) + Emitted(CodesOf(keyInfo), press, flags, maskList[..i])
      {
        EmittedNext(CodesOf(keyInfo), press, flags, maskList, i);
        if maskList[i] in flags && maskList[i] != NX_ALPHASHIFTMASK {
          PressModifier(press, maskList[i]);
        }
      }
      assert maskList[..|maskList|] == maskList;
    }

    method UpdateModKeys(flags: Mask)
      requires Valid()
      modifies this`events, this`allModifierFlags
      ensures Valid() && View() == Updated(CodesOf(keyInfo), maskList, old(View()), flags)
    {
      QueueModKeys(flags);
      allModifierFlags := flags;
    }

    method QueueModKeys(flags: Mask)
      requires x11ModifierMask == MaskOf(maskList)
      modifies this`events
      ensures events == old(events) + ModKeys(CodesOf(keyInfo), maskList, allModifierFlags, flags)
    {
      UpdateModifiers(false, (allModifierFlags - flags) * x11ModifierMask);
      UpdateModifiers(true, (flags - allModifierFlags) * x11ModifierMask);
    }

    method QueuePointerEvents(kind: PointerKind, button: int)
      modifies this`events
      ensures View() == Queued(old(View()), kind, button)
    {
      events := events + [Pointer(kind, button)];
    }

    method SendPointerEvents(kind: PointerKind, evButton: int)
      requires Valid()
      modifies this`events, this`allModifierFlags, this`fakeMouseButtonDown
      ensures Valid() && View() == PointerSent(CodesOf(keyInfo), maskList, fakes, old(View()), kind, evButton)
      decreases kind == ButtonPress
    {
      var button := evButton;
      if kind == ButtonPress && fakes.on && button == 1 {
        if fakeMouseButtonDown != 0 {
          SendPointerEvents(ButtonRelease, fakeMouseButtonDown);
          fakeMouseButtonDown := 0;
        }
        if allModifierFlags * fakes.mouse2 != {} {
          button := 2;
          fakeMouseButtonDown := 2;
          UpdateModKeys(allModifierFlags - fakes.mouse2);
        } else if allModifierFlags * fakes.mouse3 != {} {
          button := 3;
          fakeMouseButtonDown := 3;
          UpdateModKeys(allModifierFlags - fakes.mouse3);
        }
      }
      if kind == ButtonRelease && button == 1 {
        if fakeMouseButtonDown != 0 {
          button := fakeMouseButtonDown;
        }
        if fakeMouseButtonDown == 2 {
          UpdateModKeys(allModifierFlags - fakes.mouse2);
        } else if fakeMouseButtonDown == 3 {
          UpdateModKeys(allModifierFlags - fakes.mouse3);
        }
        fakeMouseButtonDown := 0;
      }
      QueuePointerEvents(kind, button);
    }
  }
}
