/** Reading the configuration: lines cut into tokens, tokens into directives. */
module ConfigParser {
  import opened Options
  import opened HexTokens
  import opened NamespaceConfig

  // ---------------------------------------------------------------- strtok

  function Span(s: string, chars: set<char>): (n: nat)
    ensures n <= |s| && (n < |s| ==> s[n] !in chars)
    ensures forall i :: 0 <= i < n ==> s[i] in chars
  {
    if s == "" || s[0] !in chars then 0 else 1 + Span(s[1..], chars)
  }

  function Until(s: string, chars: set<char>): (n: nat)
    ensures n <= |s| && (n < |s| ==> s[n] in chars)
    ensures forall i :: 0 <= i < n ==> s[i] !in chars
  {
    if s == "" || s[0] in chars then 0 else 1 + Until(s[1..], chars)
  }

  /** The token a text begins with, and where the search goes on. */
  function TokenOf(t: string, delims: set<char>): (Option<string>, string) {
    var n := Until(t, delims);
    if t == "" then (None, "") else (Some(t[..n]), if n < |t| then t[n + 1..] else "")
  }

  /** strtok: the next token, and where the search goes on. */
  function StrTok(s: string, delims: set<char>): (Option<string>, string) {
    TokenOf(s[Span(s, delims)..], delims)
  }

  lemma StrTokShorter(s: string, delims: set<char>)
    ensures StrTok(s, delims).0.Some? ==> |StrTok(s, delims).1| < |s|
  {
  }

  const BLANKS := {' ', '\t'}

  /** A line without its newline and comment. */
  function Trimmed(line: string): string {
    var l := line[..Until(line, {'\n'})];
    l[..Until(l, {'#'})]
  }

  // ---------------------------------------------------------------- directives

  function PermissionOf(token: string): set<Permission> {
    if token == "mouse-motion" then {MouseMotion}
    else if token == "shape" then {Shape}
    else if token == "transparency" then {Transparency}
    else if token == "xinput" then {XInput}
    else if token == "xkeyboard" then {XKeyboard}
    else {}
  }

  function Permissions(rest: string): set<Permission>
    decreases |rest|
  {
    var (token, after) := StrTok(rest, BLANKS);
    StrTokShorter(rest, BLANKS);
    if token.None? then {} else PermissionOf(token.value) + Permissions(after)
  }

  /** What parseLine makes of a line; None where it reads a token that is not there. */
  function DirectiveOf(line: string): Option<Directive> {
    var (first, rest) := StrTok(Trimmed(line), BLANKS);
    if first.None? then Some(Ignored) else DirectiveFor(first.value, rest)
  }

  function DirectiveFor(first: string, rest: string): Option<Directive> {
    if first == "namespace" || first == "container" then
      var name := StrTok(rest, {' '}).0;
      Some(if name.None? then Ignored else Enter(name.value))
    else if first == "auth" then AuthDirective(rest)
    else if first == "allow" then Some(Allow(Permissions(rest)))
    else if first == "superpower" then Some(Power)
    else Some(Ignored)
  }

  function AuthDirective(rest: string): Option<Directive> {
    var (proto, after) := StrTok(rest, BLANKS);
    if proto.None? then Some(Ignored) else
      var hex := StrTok(after, {' '}).0;
      if hex.None? then None else Some(Auth(Token(proto.value, TokenData(hex.value))))
  }

  function Read(lines: seq<string>): (read: seq<Option<Directive>>)
    ensures |read| == |lines| && forall i :: 0 <= i < |lines| ==> read[i] == DirectiveOf(lines[i])
  {
    seq(|lines|, i requires 0 <= i < |lines| => DirectiveOf(lines[i]))
  }

  /** What is read before the first line with a missing token. */
  function Directives(read: seq<Option<Directive>>): (ds: seq<Directive>)
    ensures |ds| <= |read| && (|ds| < |read| ==> read[|ds|].None?)
    ensures forall i :: 0 <= i < |ds| ==> read[i] == Some(ds[i])
  {
    if read == [] || read[0].None? then [] else [read[0].value] + Directives(read[1..])
  }
}
