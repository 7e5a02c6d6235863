/** The namespace extension as it runs: the list read from the configuration, and the clients put into it. */
module NamespaceServer {
  import opened Options
  import opened HexTokens
  import opened NamespaceConfig
  import opened ConfigParser
  import opened NamespaceClients

  class Namespaces {
    var list: seq<Namespace>
    var walk: Option<nat>
    /** Where strtok goes on. */
    var saved: string
    var ns: map<Client, nat>

    function Parsed(): Config
      reads this`list, this`walk
    {
      Config(list, walk)
    }

    function View(): State
      reads this`list, this`ns
    {
      State(list, ns)
    }

    constructor ()
      ensures Parsed() == Loaded([]) && ns == map[]
    {
      list, walk, saved, ns := [NS_ROOT, NS_ANON], None, "", map[];
    }

    method NextToken(delims: set<char>) returns (token: Option<string>)
      modifies this`saved
      ensures (token, saved) == StrTok(old(saved), delims)
    {
      token, saved := StrTok(saved, delims).0, StrTok(saved, delims).1;
    }

    /** Find a namespace by name, or add it at the end. */
    method SelectNs(name: string) returns (i: nat)
      modifies this`list
      ensures i == FindName(old(list), name)
      ensures list == if i < |old(list)| then old(list) else old(list) + [NewNamespace(name)]
    {
      i := 0;
      while i < |list|
        invariant i <= |list| && forall j :: 0 <= j < i ==> list[j].name != name
      {
        if list[i].name == name {
          return;
        }
        i := i + 1;
      }
      list := list + [NewNamespace(name)];
    }

    /** False where the token to be read is missing: the source goes through a null pointer there. */
    method ParseAuth(curr: nat) returns (defined: bool)
      requires curr < |list|
      modifies this`list, this`saved
      ensures defined == AuthDirective(old(saved)).Some?
      ensures list == if defined then old(list)[curr := Given(old(list)[curr], AuthDirective(old(saved)).value)]
                      else old(list)
    {
      var proto := NextToken(BLANKS);
      if proto.None? {
        return true;
      }
      var token := NextToken({' '});
      if token.None? {
        return false;
      }
      var data := ReadToken(token.value);
      list := list[curr := list[curr].(tokens := list[curr].tokens + [Token(proto.value, data)])];
      return true;
    }

    method ReadToken(token: string) returns (data: seq<Byte>)
      ensures data == TokenData(token)
    {
      var out := new Byte[|token| / 2](_ => 0);
      var ok := Hex2Bin(token, out);
      data := out[..];
    }

    method ParseAllow(curr: nat)
      requires curr < |list|
      modifies this`list, this`saved
      ensures list == old(list)[curr := Given(old(list)[curr], Allow(Permissions(old(saved))))]
    {
      var token := NextToken(BLANKS);
      ghost var granted := {};
      ghost var was := list;
      AllowTwice(was[curr], {}, {});
      while token.Some?
        invariant list == was[curr := Given(was[curr], Allow(granted))]
        invariant granted + (if token.Some? then PermissionOf(token.value) + Permissions(saved) else {}) ==
                  Permissions(old(saved))
        decreases if token.Some? then 1 + |saved| else 0
      {
        StrTokShorter(saved, BLANKS);
        AllowTwice(was[curr], granted, PermissionOf(token.value));
        Allowed(curr, PermissionOf(token.value));
        granted := granted + PermissionOf(token.value);
        token := NextToken(BLANKS);
      }
    }

    method Allowed(curr: nat, permissions: set<Permission>)
      requires curr < |list|
      modifies this`list
      ensures list == old(list)[curr := Given(old(list)[curr], Allow(permissions))]
    {
      list := list[curr := list[curr].(allow := list[curr].allow + permissions)];
    }

    method ParseNamespace()
      requires Current(Parsed()) < |list|
      modifies this`list, this`walk, this`saved
      ensures Parsed() == var name := StrTok(old(saved), {' '}).0;
                          if name.None? then old(Parsed()) else Applied(old(Parsed()), Enter(name.value))
    {
      var name := NextToken({' '});
      if name.None? {
        return;
      }
      var curr := SelectNs(name.value);
      walk := Some(curr);
    }

    method ParseRest(token: string) returns (defined: bool)
      requires Current(Parsed()) < |list|
      modifies this`list, this`walk, this`saved
      ensures defined == DirectiveFor(token, old(saved)).Some?
      ensures Parsed() == if defined then Applied(old(Parsed()), DirectiveFor(token, old(saved)).value)
                          else old(Parsed())
    {
      var curr := if walk.Some? then walk.value else ROOT;
      assert Applied(Parsed(), Ignored) == Parsed();
      defined := true;
      if token == "namespace" || token == "container" {
        ParseNamespace();
      } else if token == "auth" {
        defined := ParseAuth(curr);
      } else if token == "allow" {
        ParseAllow(curr);
      } else if token == "superpower" {
        list := list[curr := list[curr].(superPower := true)];
      }
    }

    method ParseLine(line: string) returns (defined: bool)
      requires Current(Parsed()) < |list|
      modifies this`list, this`walk, this`saved
      ensures defined == DirectiveOf(line).Some?
      ensures Parsed() == if defined then Applied(old(Parsed()), DirectiveOf(line).value) else old(Parsed())
    {
      assert Applied(Parsed(), Ignored) == Parsed();
      saved := Trimmed(line);
      var token := NextToken(BLANKS);
      if token.None? {
        return true;
      }
      defined := ParseRest(token.value);
    }

    /** XnsLoadConfig, up to the first line with a missing token. */
    method LoadConfig(lines: seq<string>) returns (defined: bool)
      requires Parsed() == Loaded([])
      modifies this`list, this`walk, this`saved
      ensures defined == forall i :: 0 <= i < |lines| ==> Read(lines)[i].Some?
      ensures Parsed() == Loaded(Directives(Read(lines)))
    {
      ghost var read := Read(lines);
      ghost var ds := Directives(read);
      for i := 0 to |lines|
        invariant i <= |ds| && Parsed() == Loaded(ds[..i])
      {
        LoadedNext(read, i);
        defined := ParseNext(lines[i], read[i]);
        if !defined {
          return;
        }
      }
      assert ds[..|lines|] == ds;
      return true;
    }

    lemma LoadedNext(read: seq<Option<Directive>>, i: nat)
      requires i < |read| && i <= |Directives(read)|
      ensures var ds := Directives(read);
              && Current(Loaded(ds[..i])) < |Loaded(ds[..i]).list|
              && (if read[i].Some? then i < |ds| && Loaded(ds[..i + 1]) == Applied(Loaded(ds[..i]), read[i].value)
                  else ds[..i] == ds)
    {
      var ds := Directives(read);
      LoadedMeans(ds[..i]);
      if i < |ds| {
        assert ds[..i + 1][..i] == ds[..i];
      }
    }

    method ParseNext(line: string, ghost read: Option<Directive>) returns (defined: bool)
      requires Current(Parsed()) < |list| && read == DirectiveOf(line)
      modifies this`list, this`walk, this`saved
      ensures defined == read.Some?
      ensures Parsed() == if defined then Applied(old(Parsed()), read.value) else old(Parsed())
    {
      defined := ParseLine(line);
    }

    // ---------------------------------------------------------------- clients

    method FindByName(name: string) returns (i: Option<nat>)
      ensures i == if FindName(list, name) < |list| then Some(FindName(list, name)) else None
    {
      var k := 0;
      while k < |list|
        invariant k <= |list| && forall j :: 0 <= j < k ==> list[j].name != name
      {
        if list[k].name == name {
          return Some(k);
        }
        k := k + 1;
      }
      return None;
    }

    /** XnsFindByAuth: all tokens of all namespaces, in the order of the lists. */
    method FindByAuth(proto: string, data: seq<Byte>) returns (found: nat)
      ensures found == FoundByAuth(list, Token(proto, data))
    {
      var k := 0;
      while k < |list|
        invariant k <= |list| && forall j :: 0 <= j < k ==> Token(proto, data) !in list[j].tokens
      {
        var t := 0;
        while t < |list[k].tokens|
          invariant t <= |list[k].tokens| && Token(proto, data) !in list[k].tokens[..t]
        {
          var at := list[k].tokens[t];
          if |at.proto| == |proto| && |at.data| == |data| && at.data == data && at.proto == proto {
            return k;
          }
          t := t + 1;
        }
        k := k + 1;
      }
      return ANON;
    }

    method AssignClient(c: Client, newns: Option<nat>)
      requires c in ns ==> ns[c] < |list|
      requires newns.Some? ==> newns.value < |list|
      modifies this`list, this`ns
      ensures View() == Assigned(old(View()), c, newns)
    {
      if c in ns {
        var i := ns[c];
        list := list[i := list[i].(refcnt := (list[i].refcnt - 1) % SIZE_RANGE)];
      }
      if newns.None? {
        ns := ns - {c};
      } else {
        ns := ns[c := newns.value];
        var i := newns.value;
        list := list[i := list[i].(refcnt := (list[i].refcnt + 1) % SIZE_RANGE)];
      }
    }

    method AssignClientByName(c: Client, name: string)
      requires |list| >= 2 && (c in ns ==> ns[c] < |list|)
      modifies this`list, this`ns
      ensures View() == Step(old(View()), AssignedByName(c, name))
    {
      var newns := FindByName(name);
      if newns.None? {
        newns := Some(ANON);
      }
      AssignClient(c, newns);
    }

    /** hookClientState and hookClientDestroy. */
    method ClientState(e: Event)
      requires |list| >= 2 && (e.client in ns ==> ns[e.client] < |list|)
      modifies this`list, this`ns
      ensures View() == Step(old(View()), e)
    {
      match e {
        case ClientInitial(c) =>
          AssignClient(c, Some(ANON));
        case ClientRunning(c, auth) =>
          if auth.Some? {
            var found := FindByAuth(auth.value.proto, auth.value.data);
            AssignClient(c, Some(found));
          }
        case ClientDestroyed(c) =>
          AssignClient(c, None);
        case AssignedByName(c, name) =>
          AssignClientByName(c, name);
        case ClientRetained(_) =>
        case ClientGone(_) =>
      }
    }
  }
}
