/** Modifier flags of the Mac turned into X key events, and the fake mouse buttons that rest on them. */
module ModifierKeys {
  import opened Options
  import opened Bits

  // ---------------------------------------------------------------- masks, keys and keycodes

  const NX_DEVICELCTLKEYMASK: Bit := 0
  const NX_DEVICELSHIFTKEYMASK: Bit := 1
  const NX_DEVICERSHIFTKEYMASK: Bit := 2
  const NX_DEVICELCMDKEYMASK: Bit := 3
  const NX_DEVICERCMDKEYMASK: Bit := 4
  const NX_DEVICELALTKEYMASK: Bit := 5
  const NX_DEVICERALTKEYMASK: Bit := 6
  const NX_DEVICERCTLKEYMASK: Bit := 13
  const NX_ALPHASHIFTMASK: Bit := 16
  const NX_SHIFTMASK: Bit := 17
  const NX_CONTROLMASK: Bit := 18
  const NX_ALTERNATEMASK: Bit := 19
  const NX_COMMANDMASK: Bit := 20
  const NX_NUMERICPADMASK: Bit := 21
  const NX_HELPMASK: Bit := 22
  const NX_SECONDARYFNMASK: Bit := 23

  /** The NX_MODIFIERKEY_* numbers. */
  datatype NXKey =
    | ALPHALOCK | SHIFT | CONTROL | ALTERNATE | COMMAND | NUMERICPAD | HELP | SECONDARYFN
    | RSHIFT | RCONTROL | RALTERNATE | RCOMMAND

  const MIN_KEYCODE := 8

  /** modifierKeycodes[key][0]; zero where the keyboard has no such key. */
  type Keymap = NXKey -> nat

  /** DarwinModifierNXMaskToNXKey. */
  function MaskToNXKey(mask: Bit): Option<NXKey> {
    if mask == NX_ALPHASHIFTMASK then Some(ALPHALOCK)
    else if mask == NX_SHIFTMASK || mask == NX_DEVICELSHIFTKEYMASK then Some(SHIFT)
    else if mask == NX_DEVICERSHIFTKEYMASK then Some(RSHIFT)
    else if mask == NX_CONTROLMASK || mask == NX_DEVICELCTLKEYMASK then Some(CONTROL)
    else if mask == NX_DEVICERCTLKEYMASK then Some(RCONTROL)
    else if mask == NX_ALTERNATEMASK || mask == NX_DEVICELALTKEYMASK then Some(ALTERNATE)
    else if mask == NX_DEVICERALTKEYMASK then Some(RALTERNATE)
    else if mask == NX_COMMANDMASK || mask == NX_DEVICELCMDKEYMASK then Some(COMMAND)
    else if mask == NX_DEVICERCMDKEYMASK then Some(RCOMMAND)
    else if mask == NX_NUMERICPADMASK then Some(NUMERICPAD)
    else if mask == NX_HELPMASK then Some(HELP)
    else if mask == NX_SECONDARYFNMASK then Some(SECONDARYFN)
    else None
  }

  /** darwin_X11_modifier_mask_list: the masks that become key events, in this order. */
  const LISTED: seq<Bit> := [
    NX_DEVICELCTLKEYMASK, NX_DEVICERCTLKEYMASK, NX_DEVICELSHIFTKEYMASK, NX_DEVICERSHIFTKEYMASK,
    NX_DEVICELCMDKEYMASK, NX_DEVICERCMDKEYMASK, NX_DEVICELALTKEYMASK, NX_DEVICERALTKEYMASK, NX_ALPHASHIFTMASK]

  /** The list where the system headers do not tell left from right. */
  const SIDELESS: seq<Bit> := [NX_CONTROLMASK, NX_SHIFTMASK, NX_COMMANDMASK, NX_ALTERNATEMASK, NX_ALPHASHIFTMASK]

  predicate Proper(list: seq<Bit>) {
    && (forall i, j :: 0 <= i < j < |list| ==> list[i] != list[j])
    && NX_ALPHASHIFTMASK in list
  }

  lemma ListsProper()
    ensures Proper(LISTED) && Proper(SIDELESS)
  {
  }

  /** darwin_X11_modifier_mask. */
  function MaskOf(list: seq<Bit>): Mask {
    set m | m in list
  }

  /** The keycode a mask stands for on a keyboard, zero for none. */
  type Codes = Bit -> nat

  function Keycode(km: Keymap, mask: Bit): nat {
    var key := MaskToNXKey(mask);
    if key.None? then 0 else km(key.value)
  }

  function CodesOf(km: Keymap): Codes {
    (mask: Bit) => Keycode(km, mask)
  }

  // ---------------------------------------------------------------- events

  datatype PointerKind = ButtonPress | ButtonRelease | MotionNotify

  datatype Event = Key(press: bool, keycode: nat) | Pointer(kind: PointerKind, button: int)

  /** DarwinPressModifierKey: nothing for a key the keyboard does not have. */
  function Pressed(codes: Codes, press: bool, mask: Bit): seq<Event> {
    var keycode := codes(mask);
    if keycode == 0 then [] else [Key(press, keycode + MIN_KEYCODE)]
  }

  function Own(codes: Codes, press: bool, changed: Mask, mask: Bit): seq<Event> {
    if mask !in changed then []
    else if mask == NX_ALPHASHIFTMASK then Pressed(codes, true, mask) + Pressed(codes, false, mask)
    else Pressed(codes, press, mask)
  }

  function Emitted(codes: Codes, press: bool, changed: Mask, list: seq<Bit>): seq<Event> {
    if list == [] then []
    else (if list[0] == NX_ALPHASHIFTMASK then [] else Own(codes, press, changed, list[0]))
         + Emitted(codes, press, changed, list[1..])
  }

  /** DarwinUpdateModifiers. */
  function Modifiers(codes: Codes, list: seq<Bit>, press: bool, changed: Mask): seq<Event> {
    Own(codes, press, changed, NX_ALPHASHIFTMASK) + Emitted(codes, press, changed, list)
  }

  /** DarwinUpdateModKeys: the events when the flags go from one set to another. */
  function ModKeys(codes: Codes, list: seq<Bit>, from: Mask, to: Mask): seq<Event> {
    Modifiers(codes, list, false, (from - to) * MaskOf(list)) + Modifiers(codes, list, true, (to - from) * MaskOf(list))
  }

  // ---------------------------------------------------------------- what a client sees of keys and buttons

  datatype Switch = KeySwitch(keycode: nat) | ButtonSwitch(button: int)

  /** What an event says of a key or button: pressed, released or nothing. */
  function Turn(e: Event, sw: Switch): Option<bool> {
    match e
    case Key(press, keycode) => if sw == KeySwitch(keycode) then Some(press) else None
    case Pointer(kind, button) =>
      if sw != ButtonSwitch(button) || kind == MotionNotify then None else Some(kind == ButtonPress)
  }

  /** Whether the last event of the key or button was a press. */
  function Down(h: seq<Event>, sw: Switch): bool {
    if h == [] then false else
      var last := Turn(h[|h| - 1], sw);
      if last.Some? then last.value else Down(h[..|h| - 1], sw)
  }

  /** It is pressed only when up, and released only when down. */
  predicate Alternates(h: seq<Event>, sw: Switch) {
    h == [] ||
    var last := Turn(h[|h| - 1], sw);
    Alternates(h[..|h| - 1], sw) && (last.Some? ==> last.value != Down(h[..|h| - 1], sw))
  }

  function Presses(h: seq<Event>, sw: Switch): nat {
    if h == [] then 0 else Presses(h[..|h| - 1], sw) + if Turn(h[|h| - 1], sw) == Some(true) then 1 else 0
  }

  function SwitchOf(codes: Codes, mask: Bit): Switch {
    KeySwitch(codes(mask) + MIN_KEYCODE)
  }

  /** The history shows the flag: the key is down exactly when it is set; the lock key, pressed and released
      for every change, was pressed an odd number of times exactly when it is set. */
  predicate Shows(h: seq<Event>, codes: Codes, mask: Bit, flags: Mask) {
    var sw := SwitchOf(codes, mask);
    && Alternates(h, sw)
    && if mask == NX_ALPHASHIFTMASK
         then !Down(h, sw) && (Presses(h, sw) % 2 == 1 <==> mask in flags)
         else Down(h, sw) <==> mask in flags
  }

  predicate Silent(es: seq<Event>, sw: Switch) {
    forall i :: 0 <= i < |es| ==> Turn(es[i], sw) == None
  }

  lemma {:induction false} SilentKeeps(h: seq<Event>, es: seq<Event>, sw: Switch)
    requires Silent(es, sw)
    ensures Down(h + es, sw) == Down(h, sw)
    ensures Alternates(h + es, sw) == Alternates(h, sw)
    ensures Presses(h + es, sw) == Presses(h, sw)
  {
    if es == [] {
      assert h + es == h;
    } else {
      var but := es[..|es| - 1];
      SilentKeeps(h, but, sw);
      assert (h + es)[..|h + es| - 1] == h + but;
    }
  }

  lemma OneMore(h: seq<Event>, e: Event, sw: Switch)
    requires Turn(e, sw).Some?
    ensures var g, press := h + [e], Turn(e, sw).value;
            && Down(g, sw) == press
            && Alternates(g, sw) == (Alternates(h, sw) && press != Down(h, sw))
            && Presses(g, sw) == Presses(h, sw) + if press then 1 else 0
  {
    var g := h + [e];
    assert g[..|g| - 1] == h;
  }

  // ---------------------------------------------------------------- one update

  /** No other key that can make events has the sw of this one, and it has one. */
  predicate Alone(codes: Codes, list: seq<Bit>, mask: Bit) {
    codes(mask) != 0 && forall m :: m in list && m != mask ==> codes(m) != codes(mask)
  }

  lemma {:induction false} OthersSilent(codes: Codes, press: bool, changed: Mask, list: seq<Bit>, sw: Switch)
    requires forall m :: m in list && m != NX_ALPHASHIFTMASK ==> SwitchOf(codes, m) != sw
    ensures Silent(Emitted(codes, press, changed, list), sw)
  {
    if list != [] {
      OthersSilent(codes, press, changed, list[1..], sw);
      assert list[0] != NX_ALPHASHIFTMASK ==> SwitchOf(codes, list[0]) != sw;
    }
  }

  /** The events of the keys come in the order of the list. */
  lemma {:induction false} EmittedJoin(codes: Codes, press: bool, changed: Mask, a: seq<Bit>, b: seq<Bit>)
    ensures Emitted(codes, press, changed, a + b) ==
            Emitted(codes, press, changed, a) + Emitted(codes, press, changed, b)
  {
    if a == [] {
      assert a + b == b;
    } else {
      EmittedJoin(codes, press, changed, a[1..], b);
      assert (a + b)[1..] == a[1..] + b && (a + b)[0] == a[0];
      var first := if a[0] == NX_ALPHASHIFTMASK then [] else Own(codes, press, changed, a[0]);
      var l, r := Emitted(codes, press, changed, a[1..]), Emitted(codes, press, changed, b);
      assert Emitted(codes, press, changed, a + b) == first + (l + r) == first + l + r;
    }
  }

  lemma EmittedParts(codes: Codes, press: bool, changed: Mask, list: seq<Bit>, i: nat)
    requires i < |list|
    ensures Emitted(codes, press, changed, list) ==
            Emitted(codes, press, changed, list[..i]) + Emitted(codes, press, changed, [list[i]]) +
            Emitted(codes, press, changed, list[i + 1..])
  {
    EmittedJoin(codes, press, changed, list[..i], [list[i]]);
    EmittedJoin(codes, press, changed, list[..i] + [list[i]], list[i + 1..]);
    assert list == list[..i] + [list[i]] + list[i + 1..];
  }

  lemma EmittedNext(codes: Codes, press: bool, changed: Mask, list: seq<Bit>, i: nat)
    requires i < |list|
    ensures Emitted(codes, press, changed, list[..i + 1]) ==
            Emitted(codes, press, changed, list[..i]) +
            if list[i] == NX_ALPHASHIFTMASK then [] else Own(codes, press, changed, list[i])
  {
    EmittedParts(codes, press, changed, list[..i + 1], i);
    assert list[..i + 1][..i] == list[..i] && list[..i + 1][i + 1..] == [] && [list[i]][1..] == [];
  }

  lemma KeyPart(codes: Codes, press: bool, changed: Mask, list: seq<Bit>, i: nat)
    requires i < |list| && list[i] != NX_ALPHASHIFTMASK
    requires forall j :: 0 <= j < |list| && j != i ==> codes(list[j]) != codes(list[i])
    ensures var sw := SwitchOf(codes, list[i]);
            && Silent(Emitted(codes, press, changed, list[..i]), sw)
            && Silent(Emitted(codes, press, changed, list[i + 1..]), sw)
    ensures Emitted(codes, press, changed, list) ==
            Emitted(codes, press, changed, list[..i]) + Own(codes, press, changed, list[i]) +
            Emitted(codes, press, changed, list[i + 1..])
  {
    OthersSilent(codes, press, changed, list[..i], SwitchOf(codes, list[i]));
    OthersSilent(codes, press, changed, list[i + 1..], SwitchOf(codes, list[i]));
    EmittedParts(codes, press, changed, list, i);
    assert [list[i]][1..] == [];
  }

  /** Of all an update emits, a key alone on its keycode has its own events and no others. */
  lemma OwnPart(codes: Codes, list: seq<Bit>, press: bool, changed: Mask, mask: Bit)
    returns (pre: seq<Event>, post: seq<Event>)
    requires Proper(list) && mask in list && Alone(codes, list, mask)
    ensures Silent(pre, SwitchOf(codes, mask)) && Silent(post, SwitchOf(codes, mask))
    ensures Modifiers(codes, list, press, changed) == pre + Own(codes, press, changed, mask) + post
  {
    if mask == NX_ALPHASHIFTMASK {
      pre, post := [], Emitted(codes, press, changed, list);
      OthersSilent(codes, press, changed, list, SwitchOf(codes, mask));
      assert pre + Own(codes, press, changed, mask) == Own(codes, press, changed, mask);
    } else {
      pre, post := KeyOwnPart(codes, list, press, changed, mask);
    }
  }

  lemma KeyOwnPart(codes: Codes, list: seq<Bit>, press: bool, changed: Mask, mask: Bit)
    returns (pre: seq<Event>, post: seq<Event>)
    requires Proper(list) && mask in list && Alone(codes, list, mask) && mask != NX_ALPHASHIFTMASK
    ensures Silent(pre, SwitchOf(codes, mask)) && Silent(post, SwitchOf(codes, mask))
    ensures Modifiers(codes, list, press, changed) == pre + Own(codes, press, changed, mask) + post
  {
    var i := PlaceOf(list, mask);
    KeyPart(codes, press, changed, list, i);
    var lock, first := Own(codes, press, changed, NX_ALPHASHIFTMASK), Emitted(codes, press, changed, list[..i]);
    pre, post := lock + first, Emitted(codes, press, changed, list[i + 1..]);
    LockSilent(codes, list, press, changed, mask);
    assert lock + (first + Own(codes, press, changed, mask) + post) == pre + Own(codes, press, changed, mask) + post;
  }

  lemma LockSilent(codes: Codes, list: seq<Bit>, press: bool, changed: Mask, mask: Bit)
    requires Proper(list) && Alone(codes, list, mask) && mask != NX_ALPHASHIFTMASK
    ensures Silent(Own(codes, press, changed, NX_ALPHASHIFTMASK), SwitchOf(codes, mask))
  {
  }

  lemma PlaceOf(list: seq<Bit>, mask: Bit) returns (i: nat)
    requires Proper(list) && mask in list
    ensures i < |list| && list[i] == mask && forall j :: 0 <= j < |list| && j != i ==> list[j] != mask
  {
    i :| 0 <= i < |list| && list[i] == mask;
  }

  lemma KeyUpdated(h: seq<Event>, codes: Codes, list: seq<Bit>, press: bool, changed: Mask, mask: Bit)
    requires Proper(list) && mask in list && Alone(codes, list, mask) && mask != NX_ALPHASHIFTMASK
    ensures var g, sw := h + Modifiers(codes, list, press, changed), SwitchOf(codes, mask);
            && Down(g, sw) == (if mask in changed then press else Down(h, sw))
            && Alternates(g, sw) == (Alternates(h, sw) && (mask in changed ==> press != Down(h, sw)))
  {
    var sw := SwitchOf(codes, mask);
    var pre, post := OwnPart(codes, list, press, changed, mask);
    var own := Own(codes, press, changed, mask);
    SilentKeeps(h, pre, sw);
    OneMore(h + pre, Key(press, sw.keycode), sw);
    SilentKeeps(h + pre + own, post, sw);
    assert h + Modifiers(codes, list, press, changed) == h + pre + own + post;
    assert own == [] ==> h + pre + own == h + pre;
  }

  lemma LockUpdated(h: seq<Event>, codes: Codes, list: seq<Bit>, press: bool, changed: Mask)
    requires Proper(list) && Alone(codes, list, NX_ALPHASHIFTMASK) && !Down(h, SwitchOf(codes, NX_ALPHASHIFTMASK))
    ensures var g, sw := h + Modifiers(codes, list, press, changed), SwitchOf(codes, NX_ALPHASHIFTMASK);
            && !Down(g, sw) && Alternates(g, sw) == Alternates(h, sw)
            && Presses(g, sw) == Presses(h, sw) + if NX_ALPHASHIFTMASK in changed then 1 else 0
  {
    var mask := NX_ALPHASHIFTMASK;
    var sw := SwitchOf(codes, mask);
    var pre, post := OwnPart(codes, list, press, changed, mask);
    SilentKeeps(h, pre, sw);
    LockPair(h + pre, codes, press, changed);
    SilentKeeps(h + pre + Own(codes, press, changed, mask), post, sw);
    assert h + Modifiers(codes, list, press, changed) == h + pre + Own(codes, press, changed, mask) + post;
  }

  lemma LockPair(h: seq<Event>, codes: Codes, press: bool, changed: Mask)
    requires codes(NX_ALPHASHIFTMASK) != 0 && !Down(h, SwitchOf(codes, NX_ALPHASHIFTMASK))
    ensures var g := h + Own(codes, press, changed, NX_ALPHASHIFTMASK);
            var sw := SwitchOf(codes, NX_ALPHASHIFTMASK);
            && !Down(g, sw) && Alternates(g, sw) == Alternates(h, sw)
            && Presses(g, sw) == Presses(h, sw) + if NX_ALPHASHIFTMASK in changed then 1 else 0
  {
    var sw := SwitchOf(codes, NX_ALPHASHIFTMASK);
    OneMore(h, Key(true, sw.keycode), sw);
    OneMore(h + [Key(true, sw.keycode)], Key(false, sw.keycode), sw);
    var own := Own(codes, press, changed, NX_ALPHASHIFTMASK);
    assert NX_ALPHASHIFTMASK in changed ==> h + own == h + [Key(true, sw.keycode)] + [Key(false, sw.keycode)];
    assert NX_ALPHASHIFTMASK !in changed ==> h + own == h;
  }

  /** If the history shows the flags, then after an update it shows the new flags. */
  lemma UpdateShows(h: seq<Event>, codes: Codes, list: seq<Bit>, mask: Bit, from: Mask, to: Mask)
    requires Proper(list) && mask in list && Alone(codes, list, mask) && Shows(h, codes, mask, from)
    ensures Shows(h + ModKeys(codes, list, from, to), codes, mask, to)
  {
    var released, pressed := (from - to) * MaskOf(list), (to - from) * MaskOf(list);
    assert h + ModKeys(codes, list, from, to) ==
           h + Modifiers(codes, list, false, released) + Modifiers(codes, list, true, pressed);
    ChangesShow(h, codes, list, mask, from, to, released, pressed);
  }

  lemma ChangesShow(h: seq<Event>, codes: Codes, list: seq<Bit>, mask: Bit, from: Mask, to: Mask,
                    released: Mask, pressed: Mask)
    requires Proper(list) && mask in list && Alone(codes, list, mask) && Shows(h, codes, mask, from)
    requires mask in released <==> mask in from && mask !in to
    requires mask in pressed <==> mask !in from && mask in to
    ensures Shows(h + Modifiers(codes, list, false, released) + Modifiers(codes, list, true, pressed), codes, mask, to)
  {
    if mask == NX_ALPHASHIFTMASK {
      LockTwice(h, codes, list, released, pressed);
    } else {
      KeyTwice(h, codes, list, mask, released, pressed);
    }
  }

  lemma LockTwice(h: seq<Event>, codes: Codes, list: seq<Bit>, released: Mask, pressed: Mask)
    requires Proper(list) && Alone(codes, list, NX_ALPHASHIFTMASK) && !Down(h, SwitchOf(codes, NX_ALPHASHIFTMASK))
    ensures var lock, sw := NX_ALPHASHIFTMASK, SwitchOf(codes, NX_ALPHASHIFTMASK);
            var g := h + Modifiers(codes, list, false, released) + Modifiers(codes, list, true, pressed);
            && !Down(g, sw) && Alternates(g, sw) == Alternates(h, sw)
            && Presses(g, sw) ==
               Presses(h, sw) + (if lock in released then 1 else 0) + (if lock in pressed then 1 else 0)
  {
    LockUpdated(h, codes, list, false, released);
    LockUpdated(h + Modifiers(codes, list, false, released), codes, list, true, pressed);
  }

  lemma KeyTwice(h: seq<Event>, codes: Codes, list: seq<Bit>, mask: Bit, released: Mask, pressed: Mask)
    requires Proper(list) && mask in list && Alone(codes, list, mask) && mask != NX_ALPHASHIFTMASK
    requires !(mask in released && mask in pressed)
    ensures var sw := SwitchOf(codes, mask);
            var g := h + Modifiers(codes, list, false, released) + Modifiers(codes, list, true, pressed);
            && Down(g, sw) == (mask in pressed || (Down(h, sw) && mask !in released))
            && Alternates(g, sw) == (Alternates(h, sw) && (mask in released ==> Down(h, sw))
                                     && (mask in pressed ==> !Down(h, sw)))
  {
    KeyUpdated(h, codes, list, false, released, mask);
    KeyUpdated(h + Modifiers(codes, list, false, released), codes, list, true, pressed, mask);
  }

  // ---------------------------------------------------------------- all the events of an update

  /** The listed modifiers among some, the lock aside, whose key has this keycode. */
  function On(codes: Codes, list: seq<Bit>, masks: Mask, keycode: nat): set<Bit> {
    set m | m in list && IsOn(codes, masks, keycode, m)
  }

  lemma {:induction false} EmittedCount(codes: Codes, press: bool, changed: Mask, list: seq<Bit>, e: Event)
    requires forall i, j :: 0 <= i < j < |list| ==> list[i] != list[j]
    ensures multiset(Emitted(codes, press, changed, list))[e] ==
            if e.Key? && e.press == press then |On(codes, list, changed, e.keycode)| else 0
  {
    if list != [] {
      EmittedCount(codes, press, changed, list[1..], e);
      var first := if list[0] == NX_ALPHASHIFTMASK then [] else Own(codes, press, changed, list[0]);
      FirstCount(codes, press, changed, list[0], e);
      if e.Key? {
        OnFirst(codes, list, changed, e.keycode);
      }
      assert multiset(Emitted(codes, press, changed, list)) ==
             multiset(first) + multiset(Emitted(codes, press, changed, list[1..]));
    }
  }

  /** Whether a modifier of some, not the lock, has a key with this keycode. */
  predicate IsOn(codes: Codes, masks: Mask, keycode: nat, m: Bit) {
    m in masks && m != NX_ALPHASHIFTMASK && codes(m) != 0 && codes(m) + MIN_KEYCODE == keycode
  }

  lemma FirstCount(codes: Codes, press: bool, changed: Mask, m: Bit, e: Event)
    ensures multiset(if m == NX_ALPHASHIFTMASK then [] else Own(codes, press, changed, m))[e] ==
            if e.Key? && e.press == press && IsOn(codes, changed, e.keycode, m) then 1 else 0
  {
  }

  lemma OnFirst(codes: Codes, list: seq<Bit>, masks: Mask, keycode: nat)
    requires list != [] && list[0] !in list[1..]
    ensures |On(codes, list, masks, keycode)| ==
            |On(codes, list[1..], masks, keycode)| + if IsOn(codes, masks, keycode, list[0]) then 1 else 0
  {
    var m, more := list[0], On(codes, list[1..], masks, keycode);
    assert list == [m] + list[1..];
    assert On(codes, list, masks, keycode) == if IsOn(codes, masks, keycode, m) then more + {m} else more;
  }

  /** How often a change of the lock turns its key, each way. */
  function LockTurns(codes: Codes, from: Mask, to: Mask, keycode: nat): nat {
    if (NX_ALPHASHIFTMASK in from) != (NX_ALPHASHIFTMASK in to) && codes(NX_ALPHASHIFTMASK) != 0
       && codes(NX_ALPHASHIFTMASK) + MIN_KEYCODE == keycode then 1 else 0
  }

  lemma ModifiersCount(codes: Codes, list: seq<Bit>, press: bool, changed: Mask, e: Event)
    requires Proper(list)
    ensures multiset(Modifiers(codes, list, press, changed))[e] ==
            (if e.Key? && e.press == press then |On(codes, list, changed, e.keycode)| else 0) +
            (if e.Key? && NX_ALPHASHIFTMASK in changed && codes(NX_ALPHASHIFTMASK) != 0
                && codes(NX_ALPHASHIFTMASK) + MIN_KEYCODE == e.keycode then 1 else 0)
  {
    EmittedCount(codes, press, changed, list, e);
  }

  /** An update has one press for every modifier that was set and one release for every one that was cleared, a press
      and a release for a change of the lock, on the keycodes of their keys, also where keys share one; and no other
      event. */
  lemma UpdateCount(codes: Codes, list: seq<Bit>, from: Mask, to: Mask, e: Event)
    requires Proper(list)
    ensures multiset(ModKeys(codes, list, from, to))[e] ==
            if e.Pointer? then 0
            else |On(codes, list, if e.press then to - from else from - to, e.keycode)| +
                 LockTurns(codes, from, to, e.keycode)
  {
    var released, pressed := (from - to) * MaskOf(list), (to - from) * MaskOf(list);
    ModifiersCount(codes, list, false, released, e);
    ModifiersCount(codes, list, true, pressed, e);
    if e.Key? {
      OnListed(codes, list, from - to, e.keycode);
      OnListed(codes, list, to - from, e.keycode);
    }
    var a, b := Modifiers(codes, list, false, released), Modifiers(codes, list, true, pressed);
    assert multiset(a + b)[e] == multiset(a)[e] + multiset(b)[e];
    assert NX_ALPHASHIFTMASK in released || NX_ALPHASHIFTMASK in pressed <==>
           (NX_ALPHASHIFTMASK in from) != (NX_ALPHASHIFTMASK in to);
  }

  lemma OnListed(codes: Codes, list: seq<Bit>, masks: Mask, keycode: nat)
    ensures On(codes, list, masks * MaskOf(list), keycode) == On(codes, list, masks, keycode)
  {
  }

  /** Each of some events presses, or each releases, or is one of the lock's. */
  predicate OneWay(codes: Codes, es: seq<Event>, press: bool) {
    forall i :: 0 <= i < |es| ==>
      es[i].Key? && (es[i].press == press || es[i].keycode == codes(NX_ALPHASHIFTMASK) + MIN_KEYCODE)
  }

  /** If the lock changed and has a key, its press and release come first. */
  predicate LockAhead(codes: Codes, es: seq<Event>, changed: bool) {
    var keycode := codes(NX_ALPHASHIFTMASK) + MIN_KEYCODE;
    changed && codes(NX_ALPHASHIFTMASK) != 0 ==>
      |es| >= 2 && es[0] == Key(true, keycode) && es[1] == Key(false, keycode)
  }

  /** All releases of an update come before its presses, but for those of the lock, which come ahead of the releases if
      it was cleared and ahead of the presses if it was set. */
  lemma ReleasesFirst(codes: Codes, list: seq<Bit>, from: Mask, to: Mask)
    requires Proper(list)
    ensures var es, lock := ModKeys(codes, list, from, to), NX_ALPHASHIFTMASK;
            exists k :: 0 <= k <= |es|
              && OneWay(codes, es[..k], false) && LockAhead(codes, es[..k], lock in from && lock !in to)
              && OneWay(codes, es[k..], true) && LockAhead(codes, es[k..], lock in to && lock !in from)
  {
    var released, pressed := (from - to) * MaskOf(list), (to - from) * MaskOf(list);
    var a, b := Modifiers(codes, list, false, released), Modifiers(codes, list, true, pressed);
    ModifiersOneWay(codes, list, false, released);
    ModifiersOneWay(codes, list, true, pressed);
    var es := ModKeys(codes, list, from, to);
    assert es == a + b;
    assert es[..|a|] == a && es[|a|..] == b;
  }

  lemma ModifiersOneWay(codes: Codes, list: seq<Bit>, press: bool, changed: Mask)
    ensures OneWay(codes, Modifiers(codes, list, press, changed), press)
    ensures LockAhead(codes, Modifiers(codes, list, press, changed), NX_ALPHASHIFTMASK in changed)
  {
    EmittedOneWay(codes, press, changed, list);
  }

  lemma {:induction false} EmittedOneWay(codes: Codes, press: bool, changed: Mask, list: seq<Bit>)
    ensures forall i :: 0 <= i < |Emitted(codes, press, changed, list)| ==>
              Emitted(codes, press, changed, list)[i].Key? && Emitted(codes, press, changed, list)[i].press == press
  {
    if list != [] {
      EmittedOneWay(codes, press, changed, list[1..]);
    }
  }

  // ---------------------------------------------------------------- runs of updates

  function FlagsAfter(run: seq<Mask>): Mask {
    if run == [] then {} else run[|run| - 1]
  }

  /** The events of a run of updates, from no flags at all. */
  function History(codes: Codes, list: seq<Bit>, run: seq<Mask>): seq<Event> {
    if run == [] then [] else
      var before := run[..|run| - 1];
      History(codes, list, before) + ModKeys(codes, list, FlagsAfter(before), FlagsAfter(run))
  }

  ghost predicate AlwaysShown(codes: Codes, list: seq<Bit>, mask: Bit) {
    forall run :: Shows(History(codes, list, run), codes, mask, FlagsAfter(run))
  }

  lemma {:induction false} AloneShown(codes: Codes, list: seq<Bit>, mask: Bit, run: seq<Mask>)
    requires Proper(list) && mask in list && Alone(codes, list, mask)
    ensures Shows(History(codes, list, run), codes, mask, FlagsAfter(run))
  {
    if run != [] {
      var before := run[..|run| - 1];
      AloneShown(codes, list, mask, before);
      UpdateShows(History(codes, list, before), codes, list, mask, FlagsAfter(before), FlagsAfter(run));
    }
  }

  /** The events of every run of updates reproduce a modifier exactly when its key has a keycode of its own. */
  lemma ShownExactly(codes: Codes, list: seq<Bit>, mask: Bit)
    requires Proper(list) && mask in list
    ensures AlwaysShown(codes, list, mask) <==> Alone(codes, list, mask)
  {
    if Alone(codes, list, mask) {
      forall run ensures Shows(History(codes, list, run), codes, mask, FlagsAfter(run)) {
        AloneShown(codes, list, mask, run);
      }
    } else if codes(mask) == 0 {
      NoKeycode(codes, list, mask);
    } else {
      var other :| other in list && other != mask && codes(other) == codes(mask);
      SharedKeycode(codes, list, mask, other);
    }
  }

  lemma {:induction false} EmittedNonZero(codes: Codes, press: bool, changed: Mask, list: seq<Bit>)
    ensures Silent(Emitted(codes, press, changed, list), KeySwitch(MIN_KEYCODE))
  {
    if list != [] {
      EmittedNonZero(codes, press, changed, list[1..]);
    }
  }

  lemma NoKeycode(codes: Codes, list: seq<Bit>, mask: Bit)
    requires Proper(list) && mask in list && codes(mask) == 0
    ensures !AlwaysShown(codes, list, mask)
  {
    var h := History(codes, list, [{mask}]);
    EmittedNonZero(codes, false, ({} - {mask}) * MaskOf(list), list);
    EmittedNonZero(codes, true, ({mask} - {}) * MaskOf(list), list);
    Began(codes, list, {mask}, {});
    SilentKeeps([], ModKeys(codes, list, {}, {mask}), KeySwitch(MIN_KEYCODE));
    assert [] + h == h;
    assert !Shows(h, codes, mask, FlagsAfter([{mask}]));
  }

  lemma {:induction false} EmittedOne(codes: Codes, press: bool, mask: Bit, list: seq<Bit>)
    requires forall i, j :: 0 <= i < j < |list| ==> list[i] != list[j]
    ensures Emitted(codes, press, {}, list) == []
    ensures Emitted(codes, press, {mask}, list) ==
            if mask in list && mask != NX_ALPHASHIFTMASK then Own(codes, press, {mask}, mask) else []
  {
    if list != [] {
      EmittedOne(codes, press, mask, list[1..]);
    }
  }

  lemma Turned(codes: Codes, list: seq<Bit>, mask: Bit, from: Mask)
    requires Proper(list) && mask in list && mask !in from
    ensures ModKeys(codes, list, from, from + {mask}) == Own(codes, true, {mask}, mask)
  {
    assert (from - (from + {mask})) * MaskOf(list) == {};
    assert (from + {mask} - from) * MaskOf(list) == {mask};
    EmittedOne(codes, false, mask, list);
    EmittedOne(codes, true, mask, list);
  }

  lemma Began(codes: Codes, list: seq<Bit>, first: Mask, second: Mask)
    ensures History(codes, list, [first]) == ModKeys(codes, list, {}, first)
    ensures History(codes, list, [first, second]) ==
            ModKeys(codes, list, {}, first) + ModKeys(codes, list, first, second)
  {
    assert [first, second][..1] == [first] && [first][..0] == [];
    assert History(codes, list, []) == [];
  }

  lemma SharedKeycode(codes: Codes, list: seq<Bit>, mask: Bit, other: Bit)
    requires Proper(list) && mask in list && other in list && mask != other
    requires codes(mask) == codes(other) != 0
    ensures !AlwaysShown(codes, list, mask)
  {
    if other != NX_ALPHASHIFTMASK {
      SharedWithKey(codes, list, mask, other);
    } else {
      SharedWithLock(codes, list, mask);
    }
  }

  lemma SharedWithKey(codes: Codes, list: seq<Bit>, mask: Bit, other: Bit)
    requires Proper(list) && mask in list && other in list && mask != other && other != NX_ALPHASHIFTMASK
    requires codes(mask) == codes(other) != 0
    ensures !AlwaysShown(codes, list, mask)
  {
    var sw := SwitchOf(codes, mask);
    Turned(codes, list, other, {});
    Began(codes, list, {other}, {});
    assert {} + {other} == {other};
    OneMore([], Key(true, sw.keycode), sw);
    assert History(codes, list, [{other}]) == [] + [Key(true, sw.keycode)];
    assert !Shows(History(codes, list, [{other}]), codes, mask, FlagsAfter([{other}]));
  }

  lemma SharedWithLock(codes: Codes, list: seq<Bit>, mask: Bit)
    requires Proper(list) && mask in list && mask != NX_ALPHASHIFTMASK && codes(mask) == codes(NX_ALPHASHIFTMASK) != 0
    ensures !AlwaysShown(codes, list, mask)
  {
    var lock, sw := NX_ALPHASHIFTMASK, SwitchOf(codes, mask);
    var run := [{mask}, {mask} + {lock}];
    Turned(codes, list, mask, {});
    Turned(codes, list, lock, {mask});
    Began(codes, list, {mask}, {mask} + {lock});
    assert {} + {mask} == {mask};
    OwnAlone(codes, mask);
    OwnAlone(codes, lock);
    PressedTwice(sw, codes, mask, FlagsAfter(run));
    assert History(codes, list, run) ==
           [Key(true, sw.keycode), Key(true, sw.keycode)] + [Key(false, sw.keycode)];
  }

  lemma OwnAlone(codes: Codes, mask: Bit)
    requires codes(mask) != 0
    ensures var k := codes(mask) + MIN_KEYCODE;
            Own(codes, true, {mask}, mask) ==
            if mask == NX_ALPHASHIFTMASK then [Key(true, k), Key(false, k)] else [Key(true, k)]
  {
  }

  /** A key up again although it is set. */
  lemma PressedTwice(sw: Switch, codes: Codes, mask: Bit, flags: Mask)
    requires sw == SwitchOf(codes, mask) && mask in flags && mask != NX_ALPHASHIFTMASK
    ensures !Shows([Key(true, sw.keycode), Key(true, sw.keycode)] + [Key(false, sw.keycode)], codes, mask, flags)
  {
    OneMore([Key(true, sw.keycode), Key(true, sw.keycode)], Key(false, sw.keycode), sw);
  }

  // ---------------------------------------------------------------- the keys behind the masks

  const KEYS: set<NXKey> := {ALPHALOCK, SHIFT, CONTROL, ALTERNATE, COMMAND, RSHIFT, RCONTROL, RALTERNATE, RCOMMAND}

  predicate OwnKeycodes(km: Keymap) {
    forall k :: k in KEYS ==> km(k) != 0 && forall l :: l in KEYS && l != k ==> km(l) != km(k)
  }

  /** The mask a key is listed under. */
  function DeviceMask(key: NXKey): Bit {
    match key
    case ALPHALOCK => NX_ALPHASHIFTMASK
    case SHIFT => NX_DEVICELSHIFTKEYMASK
    case CONTROL => NX_DEVICELCTLKEYMASK
    case ALTERNATE => NX_DEVICELALTKEYMASK
    case COMMAND => NX_DEVICELCMDKEYMASK
    case RSHIFT => NX_DEVICERSHIFTKEYMASK
    case RCONTROL => NX_DEVICERCTLKEYMASK
    case RALTERNATE => NX_DEVICERALTKEYMASK
    case RCOMMAND => NX_DEVICERCMDKEYMASK
    case NUMERICPAD => NX_NUMERICPADMASK
    case HELP => NX_HELPMASK
    case SECONDARYFN => NX_SECONDARYFNMASK
  }

  predicate FromKey(mask: Bit) {
    var key := MaskToNXKey(mask);
    key.Some? && key.value in KEYS && mask == DeviceMask(key.value)
  }

  lemma KeysListed()
    ensures forall k :: k in KEYS ==> DeviceMask(k) in LISTED && MaskToNXKey(DeviceMask(k)) == Some(k)
    ensures forall m :: m in LISTED ==> FromKey(m)
  {
    forall k | k in KEYS ensures DeviceMask(k) in LISTED && MaskToNXKey(DeviceMask(k)) == Some(k) {
      match k { case ALPHALOCK => case _ => }
    }
  }

  /** Where the system does not tell left from right, a modifier stands for the left key. */
  lemma SidelessIsLeft()
    ensures MaskToNXKey(NX_CONTROLMASK) == MaskToNXKey(NX_DEVICELCTLKEYMASK) == Some(CONTROL)
    ensures MaskToNXKey(NX_SHIFTMASK) == MaskToNXKey(NX_DEVICELSHIFTKEYMASK) == Some(SHIFT)
    ensures MaskToNXKey(NX_ALTERNATEMASK) == MaskToNXKey(NX_DEVICELALTKEYMASK) == Some(ALTERNATE)
    ensures MaskToNXKey(NX_COMMANDMASK) == MaskToNXKey(NX_DEVICELCMDKEYMASK) == Some(COMMAND)
  {
  }

  /** Every run of updates reproduces all nine modifiers exactly when their keys have keycodes of their own. */
  lemma ModifiersShown(km: Keymap)
    ensures (forall m :: m in LISTED ==> AlwaysShown(CodesOf(km), LISTED, m)) <==> OwnKeycodes(km)
  {
    KeysListed();
    ListsProper();
    forall m | m in LISTED ensures AlwaysShown(CodesOf(km), LISTED, m) <==> Alone(CodesOf(km), LISTED, m) {
      ShownExactly(CodesOf(km), LISTED, m);
    }
    AloneKeys(km, LISTED);
  }

  lemma AloneKeys(km: Keymap, list: seq<Bit>)
    requires forall k :: k in KEYS ==> DeviceMask(k) in list && MaskToNXKey(DeviceMask(k)) == Some(k)
    requires forall m :: m in list ==> FromKey(m)
    ensures (forall m :: m in list ==> Alone(CodesOf(km), list, m)) <==> OwnKeycodes(km)
  {
    if forall m :: m in list ==> Alone(CodesOf(km), list, m) {
      forall k | k in KEYS ensures km(k) != 0 && forall l :: l in KEYS && l != k ==> km(l) != km(k) {
        KeyAlone(km, list, k);
      }
    }
    if OwnKeycodes(km) {
      forall m | m in list ensures Alone(CodesOf(km), list, m) {
        MaskAlone(km, list, m);
      }
    }
  }

  lemma KeyAlone(km: Keymap, list: seq<Bit>, key: NXKey)
    requires key in KEYS && Alone(CodesOf(km), list, DeviceMask(key))
    requires forall k :: k in KEYS ==> DeviceMask(k) in list && MaskToNXKey(DeviceMask(k)) == Some(k)
    ensures km(key) != 0 && forall l :: l in KEYS && l != key ==> km(l) != km(key)
  {
    forall l | l in KEYS && l != key ensures km(l) != km(key) {
      assert CodesOf(km)(DeviceMask(l)) == km(l) && CodesOf(km)(DeviceMask(key)) == km(key);
    }
  }

  lemma MaskAlone(km: Keymap, list: seq<Bit>, mask: Bit)
    requires mask in list && OwnKeycodes(km)
    requires forall m :: m in list ==> FromKey(m)
    ensures Alone(CodesOf(km), list, mask)
  {
    forall m | m in list && m != mask ensures CodesOf(km)(m) != CodesOf(km)(mask) {
      assert FromKey(m) && FromKey(mask);
    }
  }
}
