/** The server's selections and listeners, kept by atoms; every request is proved to do what Selections says it does
    to names. */
module SelectionAtoms {
  import opened Options
  import opened Resources
  import opened SelectionNames
  import opened Selections

  type Atom = nat

  /** What the server keeps a listener under. */
  datatype Key = Key(client: Client, window: XID, selection: Atom)

  /** The index of a name among the atoms. */
  function IndexOf(names: seq<string>, name: string): (i: nat)
    ensures i <= |names| && (i < |names| ==> names[i] == name)
    ensures i < |names| <==> name in names
  {
    if names == [] || names[0] == name then 0 else 1 + IndexOf(names[1..], name)
  }

  ghost predicate Interned(atoms: seq<string>) {
    forall i, j :: 0 <= i < j < |atoms| ==> atoms[i] != atoms[j]
  }

  predicate IsAtom(atoms: seq<string>, a: Atom) {
    0 < a <= |atoms|
  }

  function NameOf(atoms: seq<string>, a: Atom): string
    requires IsAtom(atoms, a)
  {
    atoms[a - 1]
  }

  function Named(atoms: seq<string>, k: Key): Listener
    requires IsAtom(atoms, k.selection)
  {
    Listener(k.client, k.window, NameOf(atoms, k.selection))
  }

  /** The table kept by names says of every atom what the one kept by atoms does. */
  ghost predicate SelsMatch(atoms: seq<string>, sels: map<Atom, Sel>, named: map<string, Sel>) {
    && (forall a {:trigger a in sels} :: a in sels ==> IsAtom(atoms, a))
    && (forall a {:trigger NameOf(atoms, a)} :: IsAtom(atoms, a) ==> SelOf(named, NameOf(atoms, a)) == SelOf(sels, a))
    && (forall n {:trigger n in named} :: n in named ==> n in atoms)
  }

  ghost predicate ListenersMatch(
    atoms: seq<string>, listeners: map<Key, set<Kind>>, named: map<Listener, set<Kind>>)
  {
    && (forall k {:trigger k in listeners} :: k in listeners ==> IsAtom(atoms, k.selection))
    && (forall k: Key {:trigger Named(atoms, k)} ::
          IsAtom(atoms, k.selection) ==> SameMask(listeners, k, named, Named(atoms, k)))
    && (forall l {:trigger l in named} :: l in named ==> l.selection in atoms)
  }

  predicate SameMask(a: map<Key, set<Kind>>, k: Key, b: map<Listener, set<Kind>>, l: Listener) {
    (k in a <==> l in b) && (k in a ==> a[k] == b[l])
  }

  lemma SameAtom(atoms: seq<string>, a: Atom, b: Atom)
    requires Interned(atoms) && IsAtom(atoms, a) && IsAtom(atoms, b) && NameOf(atoms, a) == NameOf(atoms, b)
    ensures a == b
  {
  }

  lemma SelPut(atoms: seq<string>, sels: map<Atom, Sel>, named: map<string, Sel>, a: Atom, sel: Sel)
    requires Interned(atoms) && SelsMatch(atoms, sels, named) && IsAtom(atoms, a)
    ensures SelsMatch(atoms, sels[a := sel], named[NameOf(atoms, a) := sel])
  {
    forall b | IsAtom(atoms, b)
      ensures SelOf(named[NameOf(atoms, a) := sel], NameOf(atoms, b)) == SelOf(sels[a := sel], b)
    {
      if NameOf(atoms, a) == NameOf(atoms, b) { SameAtom(atoms, a, b); }
    }
  }

  lemma ListenerPut(atoms: seq<string>, listeners: map<Key, set<Kind>>, named: map<Listener, set<Kind>>, k: Key,
                    mask: set<Kind>)
    requires Interned(atoms) && ListenersMatch(atoms, listeners, named) && IsAtom(atoms, k.selection)
    ensures ListenersMatch(atoms, WithMask(listeners, k, mask), WithMask(named, Named(atoms, k), mask))
  {
    forall l: Key | IsAtom(atoms, l.selection)
      ensures SameMask(WithMask(listeners, k, mask), l, WithMask(named, Named(atoms, k), mask), Named(atoms, l))
    {
      if Named(atoms, l) == Named(atoms, k) { SameAtom(atoms, l.selection, k.selection); }
      assert SameMask(listeners, l, named, Named(atoms, l));
    }
  }

  lemma Extended(atoms: seq<string>, name: string, sels: map<Atom, Sel>, listeners: map<Key, set<Kind>>, t: Table)
    requires Interned(atoms) && SelsMatch(atoms, sels, t.sels) && ListenersMatch(atoms, listeners, t.listeners)
    requires name !in atoms
    ensures Interned(atoms + [name]) && SelsMatch(atoms + [name], sels, t.sels)
    ensures ListenersMatch(atoms + [name], listeners, t.listeners)
  {
    var more := atoms + [name];
    forall a | IsAtom(more, a) ensures SelOf(t.sels, NameOf(more, a)) == SelOf(sels, a) {
      if IsAtom(atoms, a) { assert NameOf(more, a) == NameOf(atoms, a); }
    }
    forall k: Key | IsAtom(more, k.selection) ensures SameMask(listeners, k, t.listeners, Named(more, k)) {
      if IsAtom(atoms, k.selection) { assert Named(more, k) == Named(atoms, k); }
    }
  }

  class SelectionServer {
    /** Atom a, counted from 1, names atoms[a - 1]. */
    var atoms: seq<string>
    var sels: map<Atom, Sel>
    var listeners: map<Key, set<Kind>>
    /** The same by names. */
    ghost var table: Table

    predicate ValidAtom(a: Atom)
      reads this`atoms
    {
      IsAtom(atoms, a)
    }

    ghost predicate Valid()
      reads this
    {
      Interned(atoms) && SelsMatch(atoms, sels, table.sels) && ListenersMatch(atoms, listeners, table.listeners)
    }

    function NameForAtom(a: Atom): string
      requires ValidAtom(a)
      reads this`atoms
    {
      NameOf(atoms, a)
    }

    constructor ()
      ensures Valid() && table == EMPTY && atoms == []
    {
      atoms, sels, listeners, table := [], map[], map[], EMPTY;
    }

    /** dixAddAtom: the atom of a name, made if there is none. */
    method AddAtom(name: string) returns (a: Atom)
      requires Valid()
      modifies this`atoms
      ensures Valid() && table == old(table) && old(atoms) <= atoms
      ensures ValidAtom(a) && NameForAtom(a) == name
    {
      var i := 0;
      while i < |atoms| && atoms[i] != name
        invariant i <= |atoms| && name !in atoms[..i]
      {
        i := i + 1;
      }
      if i == |atoms| {
        Extended(atoms, name, sels, listeners, table);
        atoms := atoms + [name];
      }
      a := i + 1;
    }

    /** hookSelectionFilter: the atom the request goes on with. */
    method FilterSelection(c: Client, op: Filter, selection: Atom) returns (rewritten: Atom)
      requires Valid() && ValidAtom(selection)
      modifies this`atoms
      ensures Valid() && table == old(table) && old(atoms) <= atoms
      ensures ValidAtom(rewritten) && NameForAtom(rewritten) == Filtered(c, op, old(NameForAtom(selection)))
    {
      if c.superPower {
        return selection;
      }
      var origSelectionName := NameForAtom(selection);
      var realSelection := AddAtom(Mangle(c.ns, origSelectionName));
      match op {
        case GetOwnerFilter | SetOwnerFilter | ConvertFilter | ListenFilter =>
          rewritten := realSelection;
        case NotifyFilter =>
          rewritten := AddAtom(StripNS(origSelectionName));
        case EvRequestFilter | EvClearFilter =>
          rewritten := selection;
      }
    }

    /** ProcSetSelectionOwner. */
    method SetSelectionOwner(c: Client, selection: Atom, window: XID, time: Time, now: Time) returns (reply: Reply)
      requires Valid() && ValidAtom(selection)
      modifies this
      ensures Valid() && old(atoms) <= atoms
      ensures (table, reply) == Step(true, old(table), c, SetOwner(old(NameForAtom(selection)), window, time, now))
    {
      if time > now {
        return Ignored;
      }
      var actual := FilterSelection(c, SetOwnerFilter, selection);
      var told := FilterSelection(c, EvClearFilter, selection);
      reply := SetOwnerOf(actual, told, c, window, time);
    }

    method SetOwnerOf(actual: Atom, told: Atom, c: Client, window: XID, time: Time) returns (reply: Reply)
      requires Valid() && ValidAtom(actual) && ValidAtom(told)
      modifies this
      ensures Valid() && old(atoms) <= atoms
      ensures (table, reply) ==
              OwnerSet(true, old(table), c, old(NameForAtom(actual)), old(NameForAtom(told)), window, time)
    {
      var was := LookupSelection(actual);
      if time < was.since {
        return Ignored;
      }
      var cleared := if was.holder.Some? && (window == 0 || was.holder.value.client != c)
                       then Some((was.holder.value, NameForAtom(told))) else None;
      SetSelection(actual, Sel(if window == 0 then None else Some(Holder(c, window)), time));
      var notices := Notify(actual, SetOwnerKind);
      reply := Changed(cleared, notices);
    }

    /** dixLookupSelection: one never owned is as one given up. */
    method LookupSelection(a: Atom) returns (sel: Sel)
      requires Valid() && ValidAtom(a)
      ensures sel == SelOf(table.sels, NameForAtom(a))
    {
      assert SelOf(table.sels, NameOf(atoms, a)) == SelOf(sels, a);
      sel := SelOf(sels, a);
    }

    method SetSelection(a: Atom, sel: Sel)
      requires Valid() && ValidAtom(a)
      modifies this`sels, this`table
      ensures Valid() && table == old(table).(sels := old(table).sels[NameForAtom(a) := sel])
      ensures sels == old(sels)[a := sel]
    {
      SelPut(atoms, sels, table.sels, a, sel);
      sels := sels[a := sel];
      table := table.(sels := table.sels[NameForAtom(a) := sel]);
    }

    /** XFixesSelectionCallback: every listener of the selection for this kind of change hears of it, under its own name
        for it; of the owner only when one was set. */
    method Notify(selection: Atom, kind: Kind) returns (notices: multiset<Notice>)
      requires Valid() && ValidAtom(selection)
      modifies this`atoms
      ensures Valid() && old(atoms) <= atoms && table == old(table)
      ensures var owner := if kind == SetOwnerKind then old(WindowOf(SelOf(table.sels, NameForAtom(selection)))) else 0;
              notices == Notices(true, old(table).listeners, old(NameForAtom(selection)), kind, owner)
    {
      var sel := LookupSelection(selection);
      AllHear(selection, kind);
      notices := TellAll(selection, kind, if kind == SetOwnerKind then WindowOf(sel) else 0);
    }

    method TellAll(selection: Atom, kind: Kind, owner: XID) returns (notices: multiset<Notice>)
      requires Valid() && ValidAtom(selection)
      modifies this`atoms
      ensures Valid() && old(atoms) <= atoms && table == old(table)
      ensures var heard := old(ListenersOf(HearingKeys(listeners, selection, kind), NameForAtom(selection)));
              notices == NoticesTo(true, heard, kind, owner)
    {
      ghost var t, name := table, NameForAtom(selection);
      notices := multiset{};
      var todo := HearingKeys(listeners, selection, kind);
      ghost var all := NoticesTo(true, ListenersOf(todo, name), kind, owner);
      while todo != {}
        invariant Valid() && old(atoms) <= atoms && table == t
        invariant ValidAtom(selection) && NameForAtom(selection) == name
        invariant forall k :: k in todo ==> k.selection == selection
        invariant notices + NoticesTo(true, ListenersOf(todo, name), kind, owner) == all
        decreases todo
      {
        var k :| k in todo;
        var notice := Tell(k, kind, owner);
        OneMoreTold(todo, k, name, kind, owner);
        ToldInOrder(notices, NoticesTo(true, ListenersOf(todo - {k}, name), kind, owner), multiset{notice});
        notices := notices + multiset{notice};
        todo := todo - {k};
      }
    }

    method Tell(k: Key, kind: Kind, owner: XID) returns (notice: Notice)
      requires Valid() && ValidAtom(k.selection)
      modifies this`atoms
      ensures Valid() && old(atoms) <= atoms && table == old(table)
      ensures notice == NoticeTo(true, old(Named(atoms, k)), kind, owner)
    {
      var told := FilterSelection(k.client, NotifyFilter, k.selection);
      notice := Notice(k.client, k.window, kind, owner, NameForAtom(told));
    }

    lemma AllHear(selection: Atom, kind: Kind)
      requires Valid() && ValidAtom(selection)
      ensures ListenersOf(HearingKeys(listeners, selection, kind), NameForAtom(selection)) ==
              Hearers(table.listeners, NameForAtom(selection), kind)
    {
      var name, ls := NameForAtom(selection), table.listeners;
      var heard := HearingKeys(listeners, selection, kind);
      forall l | l in Hearers(ls, name, kind) ensures l in ListenersOf(heard, name) {
        var k := Key(l.client, l.window, selection);
        assert Named(atoms, k) == l && SameMask(listeners, k, ls, Named(atoms, k));
        assert k in heard;
      }
      forall k | k in heard ensures Listener(k.client, k.window, name) in Hearers(ls, name, kind) {
        assert SameMask(listeners, k, ls, Named(atoms, k)) && Hears(ls, Named(atoms, k), name, kind);
      }
    }

    /** DeleteWindowFromAnySelections. */
    method DeleteWindowFromAnySelections(window: XID) returns (reply: Reply)
      requires Valid()
      modifies this
      ensures Valid() && old(atoms) <= atoms
      ensures (table, reply) == Happens(true, old(table), Ends(WindowEnds(window)))
    {
      reply := DeleteFromAnySelections(WindowEnds(window));
    }

    /** DeleteClientFromAnySelections. */
    method DeleteClientFromAnySelections(c: Client) returns (reply: Reply)
      requires Valid()
      modifies this
      ensures Valid() && old(atoms) <= atoms
      ensures (table, reply) == Happens(true, old(table), Ends(ClientEnds(c)))
    {
      reply := DeleteFromAnySelections(ClientEnds(c));
    }

    /** The loop of both: for each selection that loses its holder the listeners are told, and then it has none. */
    method DeleteFromAnySelections(e: End) returns (reply: Reply)
      requires Valid()
      modifies this
      ensures Valid() && old(atoms) <= atoms
      ensures (table, reply) == Happens(true, old(table), Ends(e))
    {
      ghost var all := NoticesTo(true, Bereft(table, e), KindOf(e), 0);
      var notices := multiset{};
      var todo := Bereaved(sels, e);
      while todo != {}
        invariant Valid() && old(atoms) <= atoms && Ended(table, e) == Ended(old(table), e)
        invariant todo == Bereaved(sels, e)
        invariant notices + NoticesTo(true, Bereft(table, e), KindOf(e), 0) == all
        decreases todo
      {
        var a :| a in todo;
        var told := DeleteHolder(a, e);
        ToldInOrder(notices, told, NoticesTo(true, Bereft(table, e), KindOf(e), 0));
        notices := notices + told;
        todo := todo - {a};
      }
      NoneEnded(e);
      assert notices == all;
      reply := Announced(notices);
    }

    method DeleteHolder(a: Atom, e: End) returns (told: multiset<Notice>)
      requires Valid() && a in Bereaved(sels, e)
      modifies this
      ensures Valid() && old(atoms) <= atoms && Ended(table, e) == Ended(old(table), e)
      ensures Bereaved(sels, e) == old(Bereaved(sels, e)) - {a}
      ensures NoticesTo(true, old(Bereft(table, e)), KindOf(e), 0) ==
              told + NoticesTo(true, Bereft(table, e), KindOf(e), 0)
    {
      ghost var t, name := table, NameForAtom(a);
      var sel := LookupSelection(a);
      told := Notify(a, KindOf(e));
      assert NameForAtom(a) == name;
      LessBereaved(sels, e, a, sel.since);
      SetSelection(a, Sel(None, sel.since));
      OneMoreEnded(t, e, name);
    }

    lemma NoneEnded(e: End)
      requires Valid() && Bereaved(sels, e) == {}
      ensures Ended(table, e) == table && NoticesTo(true, Bereft(table, e), KindOf(e), 0) == multiset{}
    {
      forall n ensures !Bereaves(e, SelOf(table.sels, n)) {
        if n in table.sels {
          var a := IndexOf(atoms, n) + 1;
          assert NameOf(atoms, a) == n && a !in Bereaved(sels, e);
        }
      }
      assert forall n :: n in table.sels ==> SelOf(table.sels, n) == table.sels[n];
      assert Bereft(table, e) == {};
      assert Ended(table, e).sels == table.sels;
    }

    /** SelectionFreeWindow, and SelectionFreeClient for every listener of a client. */
    method FreeListeners(e: End) returns (reply: Reply)
      requires Valid()
      modifies this`listeners, this`table
      ensures Valid()
      ensures (table, reply) == Happens(true, old(table), Forgets(e))
    {
      var todo := Ending(listeners, e);
      while todo != {}
        invariant Valid() && Forgotten(table, e) == Forgotten(old(table), e)
        invariant todo == Ending(listeners, e)
        decreases todo
      {
        var k :| k in todo;
        SetMask(k, {});
        todo := todo - {k};
      }
      NoneHear(e);
      reply := Announced(multiset{});
    }

    lemma NoneHear(e: End)
      requires Valid() && Ending(listeners, e) == {}
      ensures Forgotten(table, e) == table
    {
      forall l | l in table.listeners ensures !Concerns(e, l.client, l.window) {
        var k := Key(l.client, l.window, IndexOf(atoms, l.selection) + 1);
        assert Named(atoms, k) == l && SameMask(listeners, k, table.listeners, Named(atoms, k));
        assert k !in Ending(listeners, e);
      }
      assert Forgotten(table, e).listeners == table.listeners;
    }

    /** ProcGetSelectionOwner. */
    method GetSelectionOwner(c: Client, selection: Atom) returns (reply: Reply)
      requires Valid() && ValidAtom(selection)
      modifies this`atoms
      ensures Valid() && old(atoms) <= atoms
      ensures (table, reply) == Step(true, old(table), c, GetOwner(old(NameForAtom(selection))))
    {
      var actual := FilterSelection(c, GetOwnerFilter, selection);
      var sel := LookupSelection(actual);
      reply := OwnerIs(WindowOf(sel));
    }

    /** ProcConvertSelection: the owner is asked under the client's name; without an owner to ask the filter is run
        again on what it gave. */
    method ConvertSelection(c: Client, selection: Atom, silent: set<Client>) returns (reply: Reply)
      requires Valid() && ValidAtom(selection)
      modifies this`atoms
      ensures Valid() && old(atoms) <= atoms
      ensures (table, reply) == Step(true, old(table), c, ConvertTo(old(NameForAtom(selection)), silent))
    {
      var actual := FilterSelection(c, ConvertFilter, selection);
      var sel := LookupSelection(actual);
      if sel.holder.Some? && sel.holder.value.client !in silent {
        var told := FilterSelection(c, EvRequestFilter, selection);
        reply := Asked(sel.holder.value, NameForAtom(told));
      } else {
        var told := FilterSelection(c, ConvertFilter, actual);
        reply := Refused(NameForAtom(told));
      }
    }

    /** ProcXFixesSelectSelectionInput. */
    method SelectSelectionInput(c: Client, selection: Atom, window: XID, mask: set<Kind>) returns (reply: Reply)
      requires Valid() && ValidAtom(selection)
      modifies this
      ensures Valid() && old(atoms) <= atoms
      ensures (table, reply) == Step(true, old(table), c, Listen(old(NameForAtom(selection)), window, mask))
    {
      var actual := FilterSelection(c, ListenFilter, selection);
      SetMask(Key(c, window, actual), mask);
      reply := Listening;
    }

    method SetMask(k: Key, mask: set<Kind>)
      requires Valid() && ValidAtom(k.selection)
      modifies this`listeners, this`table
      ensures Valid()
      ensures table ==
              old(table).(listeners := WithMask(old(table).listeners, Named(atoms, k), mask))
      ensures listeners == WithMask(old(listeners), k, mask)
    {
      ListenerPut(atoms, listeners, table.listeners, k, mask);
      listeners := WithMask(listeners, k, mask);
      table := table.(listeners := WithMask(table.listeners, Named(atoms, k), mask));
    }
  }

  /** The keys of those that listen to a selection for a kind of change. */
  function HearingKeys(listeners: map<Key, set<Kind>>, selection: Atom, kind: Kind): set<Key> {
    set k | k in listeners && k.selection == selection && kind in listeners[k]
  }

  /** The selections that lose their holder. */
  function Bereaved(sels: map<Atom, Sel>, e: End): set<Atom> {
    set a | a in sels && Bereaves(e, sels[a])
  }

  lemma LessBereaved(sels: map<Atom, Sel>, e: End, a: Atom, since: Time)
    ensures Bereaved(sels[a := Sel(None, since)], e) == Bereaved(sels, e) - {a}
  {
  }

  /** The listeners that end. */
  function Ending(listeners: map<Key, set<Kind>>, e: End): set<Key> {
    set k | k in listeners && Concerns(e, k.client, k.window)
  }

  function ListenersOf(keys: set<Key>, name: string): set<Listener> {
    set k | k in keys :: Listener(k.client, k.window, name)
  }

  /** No two keys of one selection are the same listener. */
  lemma OneMoreTold(keys: set<Key>, k: Key, name: string, kind: Kind, owner: XID)
    requires k in keys && forall l :: l in keys ==> l.selection == k.selection
    ensures NoticesTo(true, ListenersOf(keys, name), kind, owner) ==
            NoticesTo(true, ListenersOf(keys - {k}, name), kind, owner) +
            multiset{NoticeTo(true, Listener(k.client, k.window, name), kind, owner)}
  {
    var l := Listener(k.client, k.window, name);
    forall j | j in keys - {k} ensures Listener(j.client, j.window, name) != l {
      assert j != k;
    }
    assert l in ListenersOf(keys, name) && ListenersOf(keys, name) - {l} == ListenersOf(keys - {k}, name);
    ToldLast(true, ListenersOf(keys, name), l, kind, owner);
  }

  /** Taking the holder from one selection that loses it takes that much from what the end does. */
  lemma OneMoreEnded(t: Table, e: End, n: string)
    requires Bereaves(e, SelOf(t.sels, n))
    ensures var u := t.(sels := t.sels[n := Sel(None, SelOf(t.sels, n).since)]);
            && Ended(u, e) == Ended(t, e)
            && NoticesTo(true, Bereft(t, e), KindOf(e), 0) ==
               Notices(true, t.listeners, n, KindOf(e), 0) + NoticesTo(true, Bereft(u, e), KindOf(e), 0)
  {
    var u := t.(sels := t.sels[n := Sel(None, SelOf(t.sels, n).since)]);
    assert Ended(u, e).sels == Ended(t, e).sels;
    assert Hearers(t.listeners, n, KindOf(e)) <= Bereft(t, e);
    assert Bereft(u, e) == Bereft(t, e) - Hearers(t.listeners, n, KindOf(e));
    ToldApiece(true, Bereft(t, e), Hearers(t.listeners, n, KindOf(e)), KindOf(e), 0);
  }
}
