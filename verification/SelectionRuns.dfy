/** What selections mean over a run: every answer follows from what was asked before and what has ended since. */
module SelectionRuns {
  import opened Options
  import opened Resources
  import opened SelectionNames
  import opened Selections

  /** The event asks for the owner of what the server calls n to be set. */
  predicate Sets(filtered: bool, ev: Event, n: string) {
    ev.Asks? && ev.req.SetOwner? && Told(filtered, ev.client, SetOwnerFilter, ev.req.name) == n
  }

  /** The setting of event i is accepted: its time is not after the present, nor before that of any accepted before. */
  ghost predicate Accepted(filtered: bool, run: seq<Event>, i: nat, n: string)
    requires i < |run|
    decreases i
  {
    && Sets(filtered, run[i], n) && run[i].req.time <= run[i].req.now
    && forall j: nat :: j < i && Accepted(filtered, run, j, n) ==> run[j].req.time <= run[i].req.time
  }

  ghost predicate LastAccepted(filtered: bool, run: seq<Event>, i: nat, n: string) {
    i < |run| && Accepted(filtered, run, i, n) && forall j :: i < j < |run| ==> !Accepted(filtered, run, j, n)
  }

  /** The event is the end of the window, or of the client. */
  predicate EndOf(ev: Event, c: Client, window: XID) {
    ev.Ends? && if ev.end.WindowEnds? then ev.end.window == window else ev.end.client == c
  }

  /** The event is the end of what the client listened to with the window, or of all it listened to. */
  predicate Deafens(ev: Event, c: Client, window: XID) {
    ev.Forgets? && if ev.end.WindowEnds? then ev.end.window == window else ev.end.client == c
  }

  /** h owns n after the run: the last accepted setting of n made it so, and neither client nor window ended since. */
  ghost predicate Stands(filtered: bool, run: seq<Event>, n: string, h: Holder) {
    exists i: nat :: LastAccepted(filtered, run, i, n) && StandsFrom(run, i, h)
  }

  ghost predicate StandsFrom(run: seq<Event>, i: nat, h: Holder) {
    && i < |run| && run[i].Asks? && run[i].req.SetOwner? && run[i].req.window != 0
    && h == Holder(run[i].client, run[i].req.window)
    && forall j :: i < j < |run| ==> !EndOf(run[j], h.client, h.window)
  }

  predicate Listens(filtered: bool, ev: Event, l: Listener) {
    && ev.Asks? && ev.req.Listen?
    && l == Listener(ev.client, ev.req.window, Told(filtered, ev.client, ListenFilter, ev.req.name))
  }

  /** The last word of a listener was that it wants notices of this kind, and it has not ended since. */
  ghost predicate Wants(filtered: bool, run: seq<Event>, l: Listener, kind: Kind) {
    exists i: nat :: WantsFrom(filtered, run, i, l, kind)
  }

  ghost predicate WantsFrom(filtered: bool, run: seq<Event>, i: nat, l: Listener, kind: Kind) {
    && i < |run| && Listens(filtered, run[i], l) && kind in run[i].req.mask
    && forall j :: i < j < |run| ==> !Listens(filtered, run[j], l) && !Deafens(run[j], l.client, l.window)
  }

  /** What a server without selections has come to after a run. */
  ghost function After(filtered: bool, run: seq<Event>): Table {
    if run == [] then EMPTY else Happens(filtered, After(filtered, run[..|run| - 1]), run[|run| - 1]).0
  }

  // ---------------------------------------------------------------- the owner

  lemma {:induction false} AcceptedBefore(filtered: bool, run: seq<Event>, ev: Event, i: nat, n: string)
    requires i < |run|
    ensures Accepted(filtered, run + [ev], i, n) <==> Accepted(filtered, run, i, n)
    decreases i
  {
    forall j: nat | j < i ensures Accepted(filtered, run + [ev], j, n) <==> Accepted(filtered, run, j, n) {
      AcceptedBefore(filtered, run, ev, j, n);
    }
  }

  lemma LastAcceptedNext(filtered: bool, run: seq<Event>, ev: Event, i: nat, n: string)
    ensures LastAccepted(filtered, run + [ev], i, n) <==>
            if Accepted(filtered, run + [ev], |run|, n) then i == |run| else LastAccepted(filtered, run, i, n)
  {
    forall j: nat | j < |run| ensures Accepted(filtered, run + [ev], j, n) <==> Accepted(filtered, run, j, n) {
      AcceptedBefore(filtered, run, ev, j, n);
    }
  }

  lemma StandsNext(filtered: bool, run: seq<Event>, ev: Event, n: string, h: Holder)
    ensures Stands(filtered, run + [ev], n, h) <==>
            if Accepted(filtered, run + [ev], |run|, n)
              then ev.req.window != 0 && h == Holder(ev.client, ev.req.window)
              else Stands(filtered, run, n, h) && !EndOf(ev, h.client, h.window)
  {
    var next := run + [ev];
    assert next[|run|] == ev;
    forall i: nat ensures LastAccepted(filtered, next, i, n) <==>
                          if Accepted(filtered, next, |run|, n) then i == |run| else LastAccepted(filtered, run, i, n)
    {
      LastAcceptedNext(filtered, run, ev, i, n);
    }
    forall i: nat | i < |run|
      ensures StandsFrom(next, i, h) <==> StandsFrom(run, i, h) && !EndOf(ev, h.client, h.window)
    {
      StandsFromNext(run, ev, i, h);
    }
    if Accepted(filtered, next, |run|, n) {
      assert LastAccepted(filtered, next, |run|, n);
      assert StandsFrom(next, |run|, h) <==> ev.req.window != 0 && h == Holder(ev.client, ev.req.window);
    } else {
      assert forall i: nat :: LastAccepted(filtered, next, i, n) <==> LastAccepted(filtered, run, i, n);
    }
  }

  lemma StandsFromNext(run: seq<Event>, ev: Event, i: nat, h: Holder)
    requires i < |run|
    ensures StandsFrom(run + [ev], i, h) <==> StandsFrom(run, i, h) && !EndOf(ev, h.client, h.window)
  {
    var next := run + [ev];
    assert next[|run|] == ev && next[i] == run[i];
    assert forall j :: i < j < |run| ==> next[j] == run[j];
  }

  /** The table says of a selection what its history does: the time of the last accepted setting, and the owner that
      still stands. */
  ghost predicate Remembers(filtered: bool, run: seq<Event>, n: string, sel: Sel) {
    && (forall h :: sel.holder == Some(h) <==> Stands(filtered, run, n, h))
    && (if exists i: nat :: LastAccepted(filtered, run, i, n)
          then exists i: nat :: LastAccepted(filtered, run, i, n) && run[i].req.time == sel.since
          else sel.since == 0 && forall i :: 0 <= i < |run| ==> !Accepted(filtered, run, i, n))
  }

  /** A setting is accepted next exactly when its time lies between the last change and the present. */
  lemma AcceptedNext(filtered: bool, run: seq<Event>, ev: Event, n: string, sel: Sel)
    requires Remembers(filtered, run, n, sel)
    ensures Accepted(filtered, run + [ev], |run|, n) <==>
            Sets(filtered, ev, n) && sel.since <= ev.req.time <= ev.req.now
  {
    var next := run + [ev];
    forall j: nat | j < |run| ensures Accepted(filtered, next, j, n) <==> Accepted(filtered, run, j, n) {
      AcceptedBefore(filtered, run, ev, j, n);
    }
    if i: nat :| LastAccepted(filtered, run, i, n) && run[i].req.time == sel.since {
      assert next[i] == run[i];
      forall j: nat | j < |run| && Accepted(filtered, run, j, n) ensures run[j].req.time <= sel.since {
        assert j <= i;
      }
      assert forall j: nat :: j < |run| ==> next[j] == run[j];
    }
  }

  function SelAfter(sel: Sel, ev: Event, accepted: bool): Sel
    requires accepted ==> ev.Asks? && ev.req.SetOwner?
  {
    if accepted then Sel(if ev.req.window == 0 then None else Some(Holder(ev.client, ev.req.window)), ev.req.time)
    else if sel.holder.Some? && EndOf(ev, sel.holder.value.client, sel.holder.value.window) then Sel(None, sel.since)
    else sel
  }

  lemma RemembersNext(filtered: bool, run: seq<Event>, ev: Event, n: string, sel: Sel, after: Sel)
    requires Remembers(filtered, run, n, sel)
    requires after == SelAfter(sel, ev, Accepted(filtered, run + [ev], |run|, n))
    ensures Remembers(filtered, run + [ev], n, after)
  {
    var next := run + [ev];
    forall h ensures after.holder == Some(h) <==> Stands(filtered, next, n, h) {
      StandsNext(filtered, run, ev, n, h);
      assert sel.holder == Some(h) <==> Stands(filtered, run, n, h);
    }
    forall i: nat ensures LastAccepted(filtered, next, i, n) <==>
                          if Accepted(filtered, next, |run|, n) then i == |run| else LastAccepted(filtered, run, i, n)
    {
      LastAcceptedNext(filtered, run, ev, i, n);
    }
    forall j: nat | j < |run| ensures Accepted(filtered, next, j, n) <==> Accepted(filtered, run, j, n) {
      AcceptedBefore(filtered, run, ev, j, n);
    }
    assert next[|run|] == ev && forall j: nat :: j < |run| ==> next[j] == run[j];
  }

  lemma SelNext(filtered: bool, t: Table, ev: Event, n: string)
    ensures var sel := SelOf(t.sels, n);
            SelOf(Happens(filtered, t, ev).0.sels, n) ==
            SelAfter(sel, ev, Sets(filtered, ev, n) && sel.since <= ev.req.time <= ev.req.now)
  {
  }

  lemma {:induction false} OwnerAfter(filtered: bool, run: seq<Event>, n: string)
    ensures Remembers(filtered, run, n, SelOf(After(filtered, run).sels, n))
  {
    if run != [] {
      var before, ev := run[..|run| - 1], run[|run| - 1];
      OwnerAfter(filtered, before, n);
      var sel := SelOf(After(filtered, before).sels, n);
      AcceptedNext(filtered, before, ev, n, sel);
      SelNext(filtered, After(filtered, before), ev, n);
      assert before + [ev] == run;
      RemembersNext(filtered, before, ev, n, sel, SelOf(After(filtered, run).sels, n));
    }
  }

  // ---------------------------------------------------------------- the listeners

  lemma WantsNext(filtered: bool, run: seq<Event>, ev: Event, l: Listener, kind: Kind)
    ensures Wants(filtered, run + [ev], l, kind) <==>
            if Listens(filtered, ev, l) then kind in ev.req.mask
            else Wants(filtered, run, l, kind) && !Deafens(ev, l.client, l.window)
  {
    var next := run + [ev];
    assert next[|run|] == ev && forall j: nat :: j < |run| ==> next[j] == run[j];
    assert WantsFrom(filtered, next, |run|, l, kind) <==> Listens(filtered, ev, l) && kind in ev.req.mask;
    forall i: nat | i < |run|
      ensures WantsFrom(filtered, next, i, l, kind) <==>
              WantsFrom(filtered, run, i, l, kind) && !Listens(filtered, ev, l) && !Deafens(ev, l.client, l.window)
    {
      WantsFromNext(filtered, run, ev, i, l, kind);
    }
  }

  lemma WantsFromNext(filtered: bool, run: seq<Event>, ev: Event, i: nat, l: Listener, kind: Kind)
    requires i < |run|
    ensures WantsFrom(filtered, run + [ev], i, l, kind) <==>
            WantsFrom(filtered, run, i, l, kind) && !Listens(filtered, ev, l) && !Deafens(ev, l.client, l.window)
  {
    var next := run + [ev];
    assert next[|run|] == ev && next[i] == run[i];
    assert forall j :: i < j < |run| ==> next[j] == run[j];
  }

  predicate Listed(t: Table, l: Listener, kind: Kind) {
    l in t.listeners && kind in t.listeners[l]
  }

  lemma ListedNext(filtered: bool, t: Table, ev: Event, l: Listener, kind: Kind)
    ensures Listed(Happens(filtered, t, ev).0, l, kind) <==>
            if Listens(filtered, ev, l) then kind in ev.req.mask
            else Listed(t, l, kind) && !Deafens(ev, l.client, l.window)
  {
  }

  lemma {:induction false} ListenersAfter(filtered: bool, run: seq<Event>, l: Listener, kind: Kind)
    ensures Listed(After(filtered, run), l, kind) <==> Wants(filtered, run, l, kind)
  {
    if run != [] {
      var before, ev := run[..|run| - 1], run[|run| - 1];
      ListenersAfter(filtered, before, l, kind);
      ListedNext(filtered, After(filtered, before), ev, l, kind);
      WantsNext(filtered, before, ev, l, kind);
      assert before + [ev] == run;
    }
  }

  // ---------------------------------------------------------------- the answers

  /** For each listener one notice, of this kind and owner, under the name translated back for it, and no more. */
  ghost predicate Announces(filtered: bool, ls: set<Listener>, kind: Kind, owner: XID, notices: multiset<Notice>) {
    forall x: Notice :: notices[x] == |Addressees(filtered, ls, kind, owner, x)|
  }

  function Addressees(filtered: bool, ls: set<Listener>, kind: Kind, owner: XID, x: Notice): set<Listener> {
    set l | l in ls && x == Notice(l.client, l.window, kind, owner, Told(filtered, l.client, NotifyFilter, l.selection))
  }

  lemma {:induction false} NoticesAnnounce(filtered: bool, ls: set<Listener>, kind: Kind, owner: XID)
    ensures Announces(filtered, ls, kind, owner, NoticesTo(filtered, ls, kind, owner))
    decreases |ls|
  {
    if ls != {} {
      var l := ToldFirst(filtered, ls, kind, owner);
      NoticesAnnounce(filtered, ls - {l}, kind, owner);
      forall x: Notice
        ensures NoticesTo(filtered, ls, kind, owner)[x] == |Addressees(filtered, ls, kind, owner, x)|
      {
        OneAddressee(filtered, ls, l, kind, owner, x);
      }
    }
  }

  lemma OneAddressee(filtered: bool, ls: set<Listener>, l: Listener, kind: Kind, owner: XID, x: Notice)
    requires l in ls
    ensures |Addressees(filtered, ls, kind, owner, x)| ==
            |Addressees(filtered, ls - {l}, kind, owner, x)| + if x == NoticeTo(filtered, l, kind, owner) then 1 else 0
  {
    var rest := Addressees(filtered, ls - {l}, kind, owner, x);
    assert Addressees(filtered, ls, kind, owner, x) ==
           if x == NoticeTo(filtered, l, kind, owner) then rest + {l} else rest;
  }

  /** The answer to a request to set an owner: none if it is not accepted; else the owner so far is told, under the name
      the client used, if it is another client or the selection is given up, and everyone who wants to know. */
  ghost predicate SetAnswer(filtered: bool, past: seq<Event>, ev: Event, reply: Reply)
    requires ev.Asks? && ev.req.SetOwner?
  {
    var n := Told(filtered, ev.client, SetOwnerFilter, ev.req.name);
    if !Accepted(filtered, past + [ev], |past|, n) then reply == Ignored else
      && reply.Changed?
      && (reply.cleared.Some? ==> reply.cleared.value.1 == ev.req.name)
      && (forall h :: reply.cleared == Some((h, ev.req.name)) <==>
            Stands(filtered, past, n, h) && (ev.req.window == 0 || h.client != ev.client))
      && exists ls: set<Listener> ::
           && (forall l :: l in ls <==> l.selection == n && Wants(filtered, past, l, SetOwnerKind))
           && Announces(filtered, ls, SetOwnerKind, ev.req.window, reply.notices)
  }

  /** The window of the owner that stands, or 0. */
  ghost predicate GetAnswer(filtered: bool, past: seq<Event>, ev: Event, reply: Reply)
    requires ev.Asks? && ev.req.GetOwner?
  {
    var n := Told(filtered, ev.client, GetOwnerFilter, ev.req.name);
    && (forall h :: Stands(filtered, past, n, h) ==> reply == OwnerIs(h.window))
    && ((forall h :: !Stands(filtered, past, n, h)) ==> reply == OwnerIs(0))
  }

  /** The owner that stands is asked, under the name the client used, unless it is silent; else it is a refusal. */
  ghost predicate ConvertAnswer(filtered: bool, past: seq<Event>, ev: Event, reply: Reply)
    requires ev.Asks? && ev.req.ConvertTo?
  {
    var n := Told(filtered, ev.client, ConvertFilter, ev.req.name);
    && (reply.Asked? || reply.Refused?) && (reply.Asked? ==> reply.name == ev.req.name)
    && (forall h :: reply == Asked(h, ev.req.name) <==>
          Stands(filtered, past, n, h) && h.client !in ev.req.silent)
  }

  /** Of an end everyone is told who wants to know of ends of this kind, for each selection whose owner ends. */
  ghost predicate EndAnswer(filtered: bool, past: seq<Event>, ev: Event, reply: Reply)
    requires ev.Ends?
  {
    var kind := if ev.end.WindowEnds? then WindowDestroyKind else ClientCloseKind;
    && reply.Announced?
    && exists ls: set<Listener> ::
         && (forall l :: l in ls <==>
               && Wants(filtered, past, l, kind)
               && exists h :: Stands(filtered, past, l.selection, h) && EndOf(ev, h.client, h.window))
         && Announces(filtered, ls, kind, 0, reply.notices)
  }

  ghost predicate RightAnswer(filtered: bool, past: seq<Event>, ev: Event, reply: Reply) {
    match ev
    case Asks(_, SetOwner(_, _, _, _)) => SetAnswer(filtered, past, ev, reply)
    case Asks(_, GetOwner(_)) => GetAnswer(filtered, past, ev, reply)
    case Asks(_, ConvertTo(_, _)) => ConvertAnswer(filtered, past, ev, reply)
    case Asks(_, Listen(_, _, _)) => reply == Listening
    case Ends(_) => EndAnswer(filtered, past, ev, reply)
    case Forgets(_) => reply == Announced(multiset{})
  }

  lemma SetAnswered(filtered: bool, past: seq<Event>, ev: Event)
    requires ev.Asks? && ev.req.SetOwner?
    ensures SetAnswer(filtered, past, ev, Happens(filtered, After(filtered, past), ev).1)
  {
    var t, n := After(filtered, past), Told(filtered, ev.client, SetOwnerFilter, ev.req.name);
    var sel, ls := SelOf(t.sels, n), Hearers(t.listeners, n, SetOwnerKind);
    OwnerAfter(filtered, past, n);
    AcceptedNext(filtered, past, ev, n, sel);
    forall l ensures l in ls <==> l.selection == n && Wants(filtered, past, l, SetOwnerKind) {
      ListenersAfter(filtered, past, l, SetOwnerKind);
    }
    NoticesAnnounce(filtered, ls, SetOwnerKind, ev.req.window);
  }

  lemma GetAnswered(filtered: bool, past: seq<Event>, ev: Event)
    requires ev.Asks? && ev.req.GetOwner?
    ensures GetAnswer(filtered, past, ev, Happens(filtered, After(filtered, past), ev).1)
  {
    var n := Told(filtered, ev.client, GetOwnerFilter, ev.req.name);
    OwnerAfter(filtered, past, n);
    assert Remembers(filtered, past, n, SelOf(After(filtered, past).sels, n));
  }

  lemma ConvertAnswered(filtered: bool, past: seq<Event>, ev: Event)
    requires ev.Asks? && ev.req.ConvertTo?
    ensures ConvertAnswer(filtered, past, ev, Happens(filtered, After(filtered, past), ev).1)
  {
    OwnerAfter(filtered, past, Told(filtered, ev.client, ConvertFilter, ev.req.name));
  }

  lemma EndAnswered(filtered: bool, past: seq<Event>, ev: Event)
    requires ev.Ends?
    ensures EndAnswer(filtered, past, ev, Happens(filtered, After(filtered, past), ev).1)
  {
    var t, kind := After(filtered, past), KindOf(ev.end);
    var ls := Bereft(t, ev.end);
    forall l
      ensures l in ls <==>
              && Wants(filtered, past, l, kind)
              && exists h :: Stands(filtered, past, l.selection, h) && EndOf(ev, h.client, h.window)
    {
      ListenersAfter(filtered, past, l, kind);
      OwnerAfter(filtered, past, l.selection);
      BereavedOwner(filtered, past, ev, l.selection, SelOf(t.sels, l.selection));
    }
    NoticesAnnounce(filtered, ls, kind, 0);
  }

  lemma BereavedOwner(filtered: bool, past: seq<Event>, ev: Event, n: string, sel: Sel)
    requires ev.Ends? && Remembers(filtered, past, n, sel)
    ensures Bereaves(ev.end, sel) <==> exists h :: Stands(filtered, past, n, h) && EndOf(ev, h.client, h.window)
  {
    if Bereaves(ev.end, sel) {
      assert Stands(filtered, past, n, sel.holder.value);
    }
  }

  lemma AnsweredRight(filtered: bool, past: seq<Event>, ev: Event)
    ensures RightAnswer(filtered, past, ev, Happens(filtered, After(filtered, past), ev).1)
  {
    match ev {
      case Asks(_, SetOwner(_, _, _, _)) => SetAnswered(filtered, past, ev);
      case Asks(_, GetOwner(_)) => GetAnswered(filtered, past, ev);
      case Asks(_, ConvertTo(_, _)) => ConvertAnswered(filtered, past, ev);
      case Ends(_) => EndAnswered(filtered, past, ev);
      case _ =>
    }
  }

  // ---------------------------------------------------------------- runs

  lemma AfterNext(past: seq<Event>, ev: Event)
    ensures After(true, past + [ev]) == Happens(true, After(true, past), ev).0
  {
    var next := past + [ev];
    assert next[..|next| - 1] == past && next[|next| - 1] == ev;
  }

  lemma GlobalNext(g: Table, run: seq<Event>)
    requires run != []
    ensures GlobalRun(g, run) == [Happens(true, g, run[0]).1] + GlobalRun(Happens(true, g, run[0]).0, run[1..])
  {
  }

  lemma {:induction false} ReplyAt(past: seq<Event>, run: seq<Event>, i: nat)
    requires i < |run|
    ensures var g := After(true, past);
            i < |GlobalRun(g, run)| && GlobalRun(g, run)[i] == Happens(true, After(true, past + run[..i]), run[i]).1
    decreases |run|
  {
    GlobalNext(After(true, past), run);
    if i == 0 {
      assert past + run[..0] == past;
    } else {
      AfterNext(past, run[0]);
      ReplyAt(past + [run[0]], run[1..], i - 1);
      assert past + [run[0]] + run[1..][..i - 1] == past + run[..i];
    }
  }

  /** Over every run each answer is the one its history calls for. */
  lemma AnsweredOverRun(run: seq<Event>, i: nat)
    requires i < |run|
    ensures i < |GlobalRun(EMPTY, run)| && RightAnswer(true, run[..i], run[i], GlobalRun(EMPTY, run)[i])
  {
    ReplyAt([], run, i);
    assert [] + run[..i] == run[..i];
    AnsweredRight(true, run[..i], run[i]);
  }
}
