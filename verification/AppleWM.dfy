/** Selections of Apple window-manager events: a linked list of masks, and the OR of them all kept beside it. */
module AppleWM {
  import opened Resources
  import opened DbeState
  import opened DbeRequests
  import opened Bits

  datatype Entry = Entry(client: Client, mask: Mask)

  function Position(es: seq<Entry>, client: Client): (i: nat)
    ensures i <= |es| && (i < |es| ==> es[i].client == client)
    ensures forall j :: 0 <= j < i ==> es[j].client != client
  {
    if es == [] || es[0].client == client then 0 else 1 + Position(es[1..], client)
  }

  /** What the clients have selected. */
  function Meaning(es: seq<Entry>): map<Client, Mask> {
    if es == [] then map[] else Meaning(es[1..])[es[0].client := es[0].mask]
  }

  /** At most one entry for a client, and none with an empty mask. */
  predicate WellFormed(es: seq<Entry>) {
    es == [] || (es[0].client !in Meaning(es[1..]) && es[0].mask != {} && WellFormed(es[1..]))
  }

  function OrAll(es: seq<Entry>): Mask {
    if es == [] then {} else es[0].mask + OrAll(es[1..])
  }

  // ---------------------------------------------------------------- what the requests do to the list

  function Deselected(es: seq<Entry>, client: Client): seq<Entry> {
    var i := Position(es, client);
    if i == |es| then es else es[..i] + es[i + 1..]
  }

  function Selected(es: seq<Entry>, client: Client, mask: Mask): seq<Entry> {
    var i := Position(es, client);
    if mask == {} then Deselected(es, client)
    else if i < |es| then es[i := Entry(client, mask)]
    else [Entry(client, mask)] + es
  }

  lemma {:induction false} Unlisted(es: seq<Entry>, client: Client)
    ensures client in Meaning(es) <==> Position(es, client) < |es|
  {
    if es != [] {
      Unlisted(es[1..], client);
    }
  }

  lemma {:induction false} WellFormedPosition(es: seq<Entry>, i: nat)
    requires WellFormed(es) && i < |es|
    ensures Position(es, es[i].client) == i
  {
    if i > 0 {
      WellFormedPosition(es[1..], i - 1);
      Unlisted(es[1..], es[i].client);
    }
  }

  lemma {:induction false} DeselectedMeaning(es: seq<Entry>, client: Client)
    requires WellFormed(es)
    ensures WellFormed(Deselected(es, client)) && Meaning(Deselected(es, client)) == Meaning(es) - {client}
  {
    if es != [] {
      Unlisted(es[1..], client);
      DeselectedMeaning(es[1..], client);
      if es[0].client == client {
        assert Deselected(es, client) == es[1..];
      } else {
        assert Deselected(es, client) == [es[0]] + Deselected(es[1..], client);
      }
    }
  }

  lemma {:induction false} ReplacedMeaning(es: seq<Entry>, client: Client, mask: Mask)
    requires WellFormed(es) && mask != {} && Position(es, client) < |es|
    ensures var ds := es[Position(es, client) := Entry(client, mask)];
            WellFormed(ds) && Meaning(ds) == Meaning(es)[client := mask]
  {
    var ds := es[Position(es, client) := Entry(client, mask)];
    if es[0].client == client {
      assert ds[1..] == es[1..];
    } else {
      ReplacedMeaning(es[1..], client, mask);
      assert ds[1..] == es[1..][Position(es[1..], client) := Entry(client, mask)];
    }
  }

  /** A request sets the client's mask, or with an empty mask removes it, and touches no other client's. */
  lemma SelectedMeaning(es: seq<Entry>, client: Client, mask: Mask)
    requires WellFormed(es)
    ensures WellFormed(Selected(es, client, mask))
    ensures Meaning(Selected(es, client, mask)) ==
            if mask == {} then Meaning(es) - {client} else Meaning(es)[client := mask]
  {
    Unlisted(es, client);
    if mask == {} {
      DeselectedMeaning(es, client);
    } else if Position(es, client) < |es| {
      ReplacedMeaning(es, client, mask);
    }
  }

  // ---------------------------------------------------------------- the cached mask

  /** The cached mask meets an event exactly when some client selected it. */
  lemma {:induction false} CachedMask(es: seq<Entry>, mask: Mask)
    requires WellFormed(es)
    ensures OrAll(es) * mask != {} <==> exists c :: c in Meaning(es) && Meaning(es)[c] * mask != {}
  {
    if es != [] {
      var e, rest := es[0], es[1..];
      CachedMask(rest, mask);
      assert Meaning(es) == Meaning(rest)[e.client := e.mask];
      assert OrAll(es) * mask == e.mask * mask + OrAll(rest) * mask;
      if e.mask * mask != {} {
        assert Meaning(es)[e.client] * mask != {};
      } else if OrAll(rest) * mask != {} {
        var c :| c in Meaning(rest) && Meaning(rest)[c] * mask != {};
        assert Meaning(es)[c] * mask != {};
      }
    }
  }

  lemma {:induction false} OrNext(es: seq<Entry>, i: nat)
    requires i < |es|
    ensures OrAll(es[..i + 1]) == OrAll(es[..i]) + es[i].mask
  {
    if i > 0 {
      OrNext(es[1..], i - 1);
      assert es[..i + 1][1..] == es[1..][..i] && es[..i][1..] == es[1..][..i - 1];
    }
  }

  // ---------------------------------------------------------------- delivery

  /** The clients an event is written to, in the order of the list. */
  function Receivers(es: seq<Entry>, mask: Mask): seq<Client> {
    if es == [] then []
    else (if es[0].mask * mask != {} then [es[0].client] else []) + Receivers(es[1..], mask)
  }

  lemma {:induction false} ReceiversNext(es: seq<Entry>, i: nat, mask: Mask)
    requires i < |es|
    ensures Receivers(es[..i + 1], mask) ==
            Receivers(es[..i], mask) + if es[i].mask * mask != {} then [es[i].client] else []
  {
    if i > 0 {
      ReceiversNext(es[1..], i - 1, mask);
      assert es[..i + 1][1..] == es[1..][..i] && es[..i][1..] == es[1..][..i - 1];
    }
  }

  /** An event goes exactly once to every client whose mask it meets, and to nobody else. */
  lemma {:induction false} DeliveredOnce(es: seq<Entry>, mask: Mask, client: Client)
    requires WellFormed(es)
    ensures multiset(Receivers(es, mask))[client] ==
            if client in Meaning(es) && Meaning(es)[client] * mask != {} then 1 else 0
  {
    if es != [] {
      DeliveredOnce(es[1..], mask, client);
    }
  }

  // ---------------------------------------------------------------- runs

  datatype Event = Select(client: Client, mask: Mask) | Dies(client: Client)

  function Step(es: seq<Entry>, e: Event): seq<Entry> {
    match e
    case Select(client, mask) => Selected(es, client, mask)
    case Dies(client) => Deselected(es, client)
  }

  function Run(es: seq<Entry>, events: seq<Event>): seq<Entry> {
    if events == [] then es else Step(Run(es, events[..|events| - 1]), events[|events| - 1])
  }

  /** The mask of a client's last request, if it has not died since. */
  function LastMask(events: seq<Event>, client: Client): Mask {
    if events == [] then {} else
      var last := events[|events| - 1];
      if last.client == client then (if last.Select? then last.mask else {})
      else LastMask(events[..|events| - 1], client)
  }

  /** After every run a client receives an event, and then once, exactly when its last request selected it. */
  lemma {:induction false} DeliveredAfterRun(events: seq<Event>, mask: Mask, client: Client)
    ensures multiset(Receivers(Run([], events), mask))[client] == if LastMask(events, client) * mask != {} then 1 else 0
  {
    RunMeaning(events, client);
    DeliveredOnce(Run([], events), mask, client);
  }

  lemma {:induction false} RunMeaning(events: seq<Event>, client: Client)
    ensures WellFormed(Run([], events))
    ensures client in Meaning(Run([], events)) <==> LastMask(events, client) != {}
    ensures client in Meaning(Run([], events)) ==> Meaning(Run([], events))[client] == LastMask(events, client)
  {
    if events != [] {
      var before, last := events[..|events| - 1], events[|events| - 1];
      RunMeaning(before, client);
      if last.Select? {
        SelectedMeaning(Run([], before), last.client, last.mask);
      } else {
        DeselectedMeaning(Run([], before), last.client);
      }
    }
  }

  // ---------------------------------------------------------------- the list itself

  class WMEvent {
    var next: WMEvent?
    const client: Client
    const clientResource: XID
    var mask: Mask

    constructor (client: Client, mask: Mask, clientResource: XID)
      ensures this.client == client && this.mask == mask && this.clientResource == clientResource && next == null
    {
      this.client, this.mask, this.clientResource, next := client, mask, clientResource, null;
    }
  }

  function NodeAt(nodes: seq<WMEvent>, i: int): WMEvent? {
    if 0 <= i < |nodes| then nodes[i] else null
  }

  ghost function EntriesOf(nodes: seq<WMEvent>): (es: seq<Entry>)
    reads nodes
    ensures |es| == |nodes|
    ensures forall i :: 0 <= i < |es| ==> es[i] == Entry(nodes[i].client, nodes[i].mask)
  {
    seq(|nodes|, i requires 0 <= i < |nodes| reads nodes => Entry(nodes[i].client, nodes[i].mask))
  }

  /** Every entry has one resource of its client's, and no resource lacks an entry. */
  ghost predicate Resourced(nodes: seq<WMEvent>, resources: map<XID, WMEvent>) {
    && (forall n {:trigger n in nodes} :: n in nodes ==>
          n.clientResource in resources && resources[n.clientResource] == n)
    && (forall id {:trigger id in resources} :: id in resources ==>
          resources[id] in nodes && resources[id].clientResource == id && ClientOf(id) == resources[id].client)
  }

  lemma ResourcedAdded(nodes: seq<WMEvent>, resources: map<XID, WMEvent>, n: WMEvent)
    requires Resourced(nodes, resources) && n.clientResource !in resources && ClientOf(n.clientResource) == n.client
    ensures Resourced([n] + nodes, resources[n.clientResource := n])
  {
  }

  lemma ResourcedRemoved(nodes: seq<WMEvent>, resources: map<XID, WMEvent>, at: nat)
    requires Resourced(nodes, resources) && at < |nodes| && forall i, j :: 0 <= i < j < |nodes| ==> nodes[i] != nodes[j]
    ensures Resourced(nodes[..at] + nodes[at + 1..], resources - {nodes[at].clientResource})
  {
    var rest := nodes[..at] + nodes[at + 1..];
    forall n ensures n in rest <==> n in nodes && n != nodes[at] {
      if i :| 0 <= i < |nodes| && nodes[i] == n && i != at {
        assert rest[if i < at then i else i - 1] == n;
      }
    }
    assert nodes[at] in nodes;
  }

  class EventSelections {
    /** Whether the list has its resource; it is made with the first selection. */
    var listed: bool
    var head: WMEvent?
    var eventMask: Mask
    var resources: map<XID, WMEvent>
    ghost var nodes: seq<WMEvent>

    ghost predicate Linked()
      reads this`head, this`nodes, nodes
    {
      && (forall i, j :: 0 <= i < j < |nodes| ==> nodes[i] != nodes[j])
      && head == NodeAt(nodes, 0)
      && (forall i :: 0 <= i < |nodes| ==> nodes[i].next == NodeAt(nodes, i + 1))
    }

    ghost function Entries(): (es: seq<Entry>)
      reads this`nodes, nodes
      ensures |es| == |nodes|
    {
      EntriesOf(nodes)
    }

    ghost predicate Valid()
      reads this, nodes
    {
      && Linked() && Resourced(nodes, resources) && WellFormed(Entries())
      && eventMask == OrAll(Entries())
      && (!listed ==> nodes == [])
    }

    constructor ()
      ensures Valid() && Entries() == []
    {
      listed, head, eventMask, resources, nodes := false, null, {}, map[], [];
    }

    method UpdateEventMask()
      requires Linked()
      modifies this`eventMask
      ensures eventMask == OrAll(Entries())
    {
      ghost var es := Entries();
      eventMask := {};
      var cur := head;
      ghost var i := 0;
      while cur != null
        invariant Linked() && i <= |nodes| && cur == NodeAt(nodes, i)
        invariant es == Entries() && eventMask == OrAll(es[..i])
        decreases |nodes| - i
      {
        OrNext(es, i);
        eventMask := eventMask + cur.mask;
        cur, i := cur.next, i + 1;
      }
      assert es[..i] == es;
    }

    /** The entry of a client and the one before it. */
    method Find(client: Client) returns (event: WMEvent?, prev: WMEvent?, ghost at: nat)
      requires Linked()
      ensures at == Position(Entries(), client)
      ensures event == NodeAt(nodes, Position(Entries(), client))
      ensures prev == NodeAt(nodes, Position(Entries(), client) - 1)
    {
      event, prev, at := head, null, 0;
      while event != null && event.client != client
        invariant Linked() && at <= |nodes| && event == NodeAt(nodes, at)
        invariant prev == NodeAt(nodes, at - 1)
        invariant forall j :: 0 <= j < at ==> nodes[j].client != client
        decreases |nodes| - at
      {
        prev, event, at := event, event.next, at + 1;
      }
    }

    method Unlink(event: WMEvent, prev: WMEvent?, ghost at: nat)
      requires Linked() && at < |nodes| && event == nodes[at] && prev == NodeAt(nodes, at - 1)
      modifies this`head, this`nodes, nodes`next
      ensures Linked() && nodes == old(nodes)[..at] + old(nodes)[at + 1..]
    {
      ghost var was := nodes;
      if prev != null {
        prev.next := event.next;
      } else {
        head := event.next;
      }
      nodes := was[..at] + was[at + 1..];
      forall i | 0 <= i < |nodes| ensures nodes[i].next == NodeAt(nodes, i + 1) {
        if i < at {
          assert nodes[i] == was[i];
        } else {
          assert nodes[i] == was[i + 1];
        }
      }
    }

    method UnlinkEntry(event: WMEvent, prev: WMEvent?, ghost at: nat)
      requires Linked() && at < |nodes| && event == nodes[at] && prev == NodeAt(nodes, at - 1)
      modifies this`head, this`nodes, nodes`next
      ensures Linked() && nodes == old(nodes)[..at] + old(nodes)[at + 1..]
      ensures Entries() == old(Entries())[..at] + old(Entries())[at + 1..]
    {
      ghost var es := Entries();
      Unlink(event, prev, at);
      forall i | 0 <= i < |nodes| ensures Entries()[i] == (es[..at] + es[at + 1..])[i] {
        assert nodes[i] == if i < at then old(nodes)[i] else old(nodes)[i + 1];
      }
    }

    method Replace(event: WMEvent, mask: Mask, ghost at: nat)
      requires Linked() && at < |nodes| && event == nodes[at]
      modifies event`mask
      ensures Linked() && Entries() == old(Entries())[at := Entry(event.client, mask)]
    {
      event.mask := mask;
    }

    method Prepend(event: WMEvent)
      requires Linked() && event !in nodes
      modifies this`head, this`nodes, event`next
      ensures Linked() && nodes == [event] + old(nodes)
      ensures Entries() == [Entry(event.client, event.mask)] + old(Entries())
    {
      event.next := head;
      head := event;
      nodes := [event] + nodes;
    }

    method AddEntry(client: Client, mask: Mask, id: XID)
      requires Linked() && Resourced(nodes, resources) && id !in resources && ClientOf(id) == client
      modifies this`listed, this`resources, this`head, this`nodes
      ensures Linked() && Resourced(nodes, resources) && listed
      ensures Entries() == [Entry(client, mask)] + old(Entries())
      ensures nodes != [] && fresh(nodes[0]) && nodes == [nodes[0]] + old(nodes)
    {
      var event := new WMEvent(client, mask, id);
      ResourcedAdded(nodes, resources, event);
      resources := resources[id := event];
      listed := true;
      Prepend(event);
    }

    method RemoveEntry(event: WMEvent, prev: WMEvent?, ghost at: nat)
      requires Linked() && Resourced(nodes, resources) && at < |nodes| && event == nodes[at]
      requires prev == NodeAt(nodes, at - 1) && at == Position(Entries(), event.client)
      modifies this`resources, this`head, this`nodes, nodes`next
      ensures Linked() && Resourced(nodes, resources) && Entries() == Deselected(old(Entries()), event.client)
      ensures forall n :: n in nodes ==> n in old(nodes)
      ensures resources == old(resources) - {event.clientResource}
    {
      ResourcedRemoved(nodes, resources, at);
      resources := resources - {event.clientResource};
      UnlinkEntry(event, prev, at);
    }

    method SetMask(client: Client, mask: Mask, id: XID)
      requires Valid() && mask != {} && id !in resources && ClientOf(id) == client
      modifies this`listed, this`resources, this`head, this`nodes, nodes`mask
      ensures Linked() && Resourced(nodes, resources) && listed
      ensures Entries() == Selected(old(Entries()), client, mask)
      ensures forall n :: n in nodes ==> n in old(nodes) || fresh(n)
    {
      var event, prev, at := Find(client);
      if event != null {
        Replace(event, mask, at);
      } else {
        AddEntry(client, mask, id);
      }
    }

    /** What deleting an interest and freeing a client's resource have in common. */
    method RemoveAndUpdate(event: WMEvent, prev: WMEvent?, ghost at: nat)
      requires Linked() && Resourced(nodes, resources) && at < |nodes| && event == nodes[at]
      requires prev == NodeAt(nodes, at - 1) && at == Position(Entries(), event.client)
      modifies this`eventMask, this`resources, this`head, this`nodes, nodes`next
      ensures Linked() && Resourced(nodes, resources) && eventMask == OrAll(Entries())
      ensures Entries() == Deselected(old(Entries()), event.client)
      ensures resources == old(resources) - {event.clientResource}
      ensures forall n :: n in nodes ==> n in old(nodes)
    {
      RemoveEntry(event, prev, at);
      UpdateEventMask();
    }

    method DeleteInterest(client: Client)
      requires Valid()
      modifies this`eventMask, this`resources, this`head, this`nodes, nodes`next
      ensures Linked() && Resourced(nodes, resources) && (!listed ==> nodes == []) && eventMask == OrAll(Entries())
      ensures Entries() == Deselected(old(Entries()), client)
      ensures forall n :: n in nodes ==> n in old(nodes)
    {
      var event, prev, at := Find(client);
      if event != null {
        RemoveAndUpdate(event, prev, at);
      }
    }

    /** ProcAppleWMSelectInput; id is what FakeClientID gives. */
    method SelectInput(client: Client, mask: Mask, id: XID)
      requires Valid() && id !in resources && ClientOf(id) == client
      modifies this, nodes`next, nodes`mask
      ensures Valid() && Entries() == Selected(old(Entries()), client, mask)
      ensures forall n :: n in nodes ==> n in old(nodes) || fresh(n)
    {
      SelectedMeaning(Entries(), client, mask);
      if mask != {} {
        SetMask(client, mask, id);
        UpdateEventMask();
      } else {
        DeleteInterest(client);
      }
    }

    /** WMFreeClient: the resource of an entry is deleted, and the entry with it. */
    method FreeClient(event: WMEvent)
      requires Valid() && event in nodes
      modifies this, nodes`next
      ensures Valid() && Entries() == Deselected(old(Entries()), event.client)
      ensures resources == old(resources) - {event.clientResource}
      ensures forall n :: n in nodes ==> n in old(nodes)
    {
      DeselectedMeaning(Entries(), event.client);
      var cur, prev, at := FindEntry(event);
      WellFormedPosition(Entries(), at);
      RemoveAndUpdate(event, prev, at);
    }

    method FindEntry(event: WMEvent) returns (cur: WMEvent?, prev: WMEvent?, ghost at: nat)
      requires Linked() && event in nodes
      ensures cur == event && at < |nodes| && event == nodes[at] && prev == NodeAt(nodes, at - 1)
    {
      cur, prev, at := head, null, 0;
      while cur != null && cur != event
        invariant Linked() && at <= |nodes| && cur == NodeAt(nodes, at)
        invariant prev == NodeAt(nodes, at - 1) && event !in nodes[..at]
        decreases |nodes| - at
      {
        prev, cur, at := cur, cur.next, at + 1;
      }
    }

    /** The resources of a client are freed: with them goes its entry, and no other. */
    method ClientDies(client: Client)
      requires Valid()
      modifies this, nodes`next
      ensures Valid() && Entries() == Deselected(old(Entries()), client)
      ensures forall id :: id in resources ==> ClientOf(id) != client
    {
      ghost var es := Deselected(Entries(), client);
      NoneLeft(Entries(), client);
      if id :| id in resources && ClientOf(id) == client {
        FreeClient(resources[id]);
      } else {
        NoEntry(client);
      }
      HasResource(es, client);
    }

    lemma NoneLeft(es: seq<Entry>, client: Client)
      requires WellFormed(es)
      ensures Position(Deselected(es, client), client) == |Deselected(es, client)|
    {
      DeselectedMeaning(es, client);
      Unlisted(Deselected(es, client), client);
    }

    lemma NoEntry(client: Client)
      requires Resourced(nodes, resources) && forall id :: id in resources ==> ClientOf(id) != client
      ensures Deselected(Entries(), client) == Entries()
    {
      forall i | 0 <= i < |nodes| ensures nodes[i].client != client {
        assert nodes[i] in nodes;
      }
    }

    lemma HasResource(es: seq<Entry>, client: Client)
      requires Resourced(nodes, resources) && Entries() == es && Position(es, client) == |es|
      ensures forall id :: id in resources ==> ClientOf(id) != client
    {
      forall id | id in resources ensures ClientOf(id) != client {
        var i :| 0 <= i < |nodes| && nodes[i] == resources[id];
        assert es[i].client == ClientOf(id);
      }
    }

    /** WMFreeEvents: the list goes, and every entry's resource with it. */
    method FreeEvents()
      requires Valid()
      modifies this
      ensures Valid() && Entries() == [] && resources == map[] && !listed
    {
      var cur := head;
      ghost var i := 0;
      while cur != null
        invariant Linked() && nodes == old(nodes) && i <= |nodes| && cur == NodeAt(nodes, i)
        invariant forall id {:trigger id in resources} :: id in resources ==>
                    resources[id] in nodes[i..] && resources[id].clientResource == id
        decreases |nodes| - i
      {
        resources := resources - {cur.clientResource};
        cur, i := cur.next, i + 1;
      }
      listed, head, eventMask, nodes := false, null, {}, [];
    }

    /** AppleWMSendEvent: the clients the event is written to, in this order. */
    method SendEvent(mask: Mask) returns (written: seq<Client>)
      requires Valid()
      ensures written == Receivers(Entries(), mask)
    {
      written := [];
      var event := head;
      ghost var i := 0;
      while event != null
        invariant Linked() && i <= |nodes| && event == NodeAt(nodes, i)
        invariant written == Receivers(Entries()[..i], mask)
        decreases |nodes| - i
      {
        ReceiversNext(Entries(), i, mask);
        if event.mask * mask != {} {
          written := written + [event.client];
        }
        event, i := event.next, i + 1;
      }
      assert Entries()[..i] == Entries();
    }
  }
}
