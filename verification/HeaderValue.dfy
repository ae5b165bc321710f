/** src/config.rs, `resolve_header_value`: the `$VAR` / `$$` expander for header values. */
module HeaderValue {
  import opened Wrappers
  import Sequences

  /** The environment variables that are set (to valid Unicode). */
  type Env = map<string, string>

  /** On failure, the name of the missing variable. */
  type Resolved = Result<string, string>

  predicate IsNameChar(c: char) {
    'a' <= c <= 'z' || 'A' <= c <= 'Z' || '0' <= c <= '9' || c == '_'
  }

  /** Length of the longest run of name characters `s` starts with. */
  function NameLength(s: string): (n: nat)
    ensures n <= |s|
    ensures forall i :: 0 <= i < n ==> IsNameChar(s[i])
    ensures n < |s| ==> !IsNameChar(s[n])
  {
    if s == "" || !IsNameChar(s[0]) then 0 else 1 + NameLength(s[1..])
  }

  function Prepend(text: string, r: Resolved): Resolved {
    match r
    case Ok(rest) => Ok(text + rest)
    case Err(name) => Err(name)
  }

  function Resolve(env: Env, s: string): Resolved {
    if s == "" then Ok("")
    else if s[0] != '$' then Prepend([s[0]], Resolve(env, s[1..]))
    else if |s| >= 2 && s[1] == '$' then Prepend("$", Resolve(env, s[2..]))
    else
      var n := NameLength(s[1..]);
      var name, rest := s[1..1 + n], s[1 + n..];
      if n == 0 then Prepend("$", Resolve(env, rest))
      else if name in env then Prepend(env[name], Resolve(env, rest))
      else Err(name)
  }

  lemma PrependTwice(a: string, b: string, r: Resolved)
    ensures Prepend(a, Prepend(b, r)) == Prepend(a + b, r)
  {
    if r.Ok? {
      Sequences.Associative(a, b, r.value);
    }
  }

  lemma PrependNothing(r: Resolved)
    ensures Prepend("", r) == r
  {
    if r.Ok? {
      assert "" + r.value == r.value;
    }
  }

  /** One step of `Resolve`, by positions in the whole value. */
  lemma ResolveAt(env: Env, value: string, i: nat)
    requires i < |value|
    ensures value[i] != '$' ==> Resolve(env, value[i..]) == Prepend([value[i]], Resolve(env, value[i + 1..]))
    ensures value[i] == '$' && i + 1 < |value| && value[i + 1] == '$' ==>
            Resolve(env, value[i..]) == Prepend("$", Resolve(env, value[i + 2..]))
    ensures value[i] == '$' && !(i + 1 < |value| && value[i + 1] == '$') ==>
            var end := i + 1 + NameLength(value[i + 1..]);
            var name := value[i + 1..end];
            Resolve(env, value[i..]) ==
              if name == "" then Prepend("$", Resolve(env, value[end..]))
              else if name in env then Prepend(env[name], Resolve(env, value[end..]))
              else Err(name)
  {
    var s := value[i..];
    assert s[1..] == value[i + 1..];
    assert |s| >= 2 ==> s[2..] == value[i + 2..];
    var n := NameLength(value[i + 1..]);
    assert s[1..1 + n] == value[i + 1..i + 1 + n] && s[1 + n..] == value[i + 1 + n..];
  }

  method ResolveHeaderValue(value: string, env: Env) returns (r: Resolved)
    ensures r == Resolve(env, value)
  {
    var result := "";
    var i := 0;
    PrependNothing(Resolve(env, value));
    assert value[0..] == value;
    while i < |value|
      invariant i <= |value|
      invariant Resolve(env, value) == Prepend(result, Resolve(env, value[i..]))
    {
      var piece, next := NextPiece(value, i, env);
      if piece.Err? {
        return piece;
      }
      PrependTwice(result, piece.value, Resolve(env, value[next..]));
      result := result + piece.value;
      i := next;
    }
    assert value[i..] == "" && result + "" == result;
    return Ok(result);
  }

  /** The body of the outer loop: what stands at position `i`, and where it ends. */
  method NextPiece(value: string, i: nat, env: Env) returns (piece: Resolved, next: nat)
    requires i < |value|
    ensures i < next <= |value|
    ensures piece.Ok? ==> Resolve(env, value[i..]) == Prepend(piece.value, Resolve(env, value[next..]))
    ensures piece.Err? ==> Resolve(env, value[i..]) == piece
  {
    ResolveAt(env, value, i);
    next := i + 1;
    if value[i] != '$' {
      return Ok([value[i]]), next;
    }
    if next < |value| && value[next] == '$' {
      return Ok("$"), next + 1;
    }
    next := ScanName(value, i + 1);
    var name := value[i + 1..next];
    if name == "" {
      return Ok("$"), next;
    }
    piece := if name in env then Ok(env[name]) else Err(name);
  }

  /** The inner loop: collects the variable name. */
  method ScanName(value: string, start: nat) returns (i: nat)
    requires start <= |value|
    ensures i == start + NameLength(value[start..])
  {
    i := start;
    while i < |value| && IsNameChar(value[i])
      invariant start <= i <= |value|
      invariant i - start + NameLength(value[i..]) == NameLength(value[start..])
    {
      assert value[i..][1..] == value[i + 1..];
      i := i + 1;
    }
  }

  // Rendering pieces

  datatype Piece = Text(text: string) | Var(name: string)

  /** Doubles every dollar sign. */
  function Escape(s: string): string {
    if s == "" then "" else (if s[0] == '$' then "$$" else [s[0]]) + Escape(s[1..])
  }

  function Render(pieces: seq<Piece>): string {
    if pieces == [] then ""
    else
      (match pieces[0]
       case Text(s) => Escape(s)
       case Var(name) => "$" + name) + Render(pieces[1..])
  }

  /** Text and values verbatim, or the first missing variable. */
  function Eval(env: Env, pieces: seq<Piece>): Resolved {
    if pieces == [] then Ok("")
    else
      match pieces[0]
      case Text(s) => Prepend(s, Eval(env, pieces[1..]))
      case Var(name) => if name in env then Prepend(env[name], Eval(env, pieces[1..])) else Err(name)
  }

  /** Every name is a name, and what follows it does not continue it. */
  predicate IsSeparated(pieces: seq<Piece>) {
    pieces == [] ||
    (&& IsSeparated(pieces[1..])
     && (pieces[0].Var? ==> && pieces[0].name != "" && NameLength(pieces[0].name) == |pieces[0].name|
                            && NameLength(Render(pieces[1..])) == 0))
  }

  lemma {:induction false} ResolveEscaped(env: Env, text: string, rest: string)
    ensures Resolve(env, Escape(text) + rest) == Prepend(text, Resolve(env, rest))
  {
    if text == "" {
      assert Escape(text) + rest == rest;
      PrependNothing(Resolve(env, rest));
    } else {
      var tail := Escape(text[1..]) + rest;
      var head := if text[0] == '$' then "$$" else [text[0]];
      Sequences.Associative(head, Escape(text[1..]), rest);
      var all := head + tail;
      assert all[|head|..] == tail && all[0] == head[0];
      assert text[0] == '$' ==> all[1] == head[1];
      ResolveEscaped(env, text[1..], rest);
      PrependTwice([text[0]], text[1..], Resolve(env, rest));
      assert text == [text[0]] + text[1..];
    }
  }

  lemma {:induction false} NameThenBreak(name: string, rest: string)
    requires NameLength(name) == |name| && NameLength(rest) == 0
    ensures NameLength(name + rest) == |name|
  {
    if name == "" {
      assert name + rest == rest;
    } else {
      assert (name + rest)[1..] == name[1..] + rest;
      NameThenBreak(name[1..], rest);
    }
  }

  lemma ResolveVariable(env: Env, name: string, rest: string)
    requires name != "" && NameLength(name) == |name| && NameLength(rest) == 0
    ensures Resolve(env, "$" + name + rest) ==
            if name in env then Prepend(env[name], Resolve(env, rest)) else Err(name)
  {
    var all := "$" + name + rest;
    assert all[1..] == name + rest;
    NameThenBreak(name, rest);
    assert all[1..1 + |name|] == name && all[1 + |name|..] == rest;
    assert IsNameChar(name[0]) && all[1] == name[0];
  }

  /**
   * Any separated sequence of texts and variables resolves to the texts and the variables' verbatim
   * values; values are never expanded again.
   */
  lemma {:induction false} ResolveRendered(env: Env, pieces: seq<Piece>)
    requires IsSeparated(pieces)
    ensures Resolve(env, Render(pieces)) == Eval(env, pieces)
  {
    if pieces != [] {
      ResolveRendered(env, pieces[1..]);
      match pieces[0]
      case Text(s) => ResolveEscaped(env, s, Render(pieces[1..]));
      case Var(name) => ResolveVariable(env, name, Render(pieces[1..]));
    }
  }

  /** Resolution undoes dollar-doubling, in every environment. */
  lemma ResolveUndoesEscape(env: Env, s: string)
    ensures Resolve(env, Escape(s)) == Ok(s)
  {
    ResolveEscaped(env, s, "");
    assert Escape(s) + "" == Escape(s) && s + "" == s;
  }

  lemma {:induction false} NameRun(name: string, more: string)
    requires NameLength(name) == |name| && NameLength(more) == |more|
    ensures NameLength(name + more) == |name + more|
  {
    if name == "" {
      assert name + more == more;
    } else {
      assert (name + more)[1..] == name[1..] + more;
      NameRun(name[1..], more);
    }
  }

  /** Text that continues a name changes which variable is read. */
  lemma ContinuedNameIsMisread(env: Env, name: string, more: string)
    requires name != "" && NameLength(name) == |name|
    requires more != "" && NameLength(more) == |more|
    ensures Resolve(env, "$" + (name + more)) == Eval(env, [Var(name + more)])
    ensures name in env && name + more !in env ==>
              Resolve(env, "$" + (name + more)) != Eval(env, [Var(name), Text(more)])
  {
    NameRun(name, more);
    ResolveVariable(env, name + more, "");
    assert "$" + (name + more) + "" == "$" + (name + more);
    assert [Var(name + more)][1..] == [] && [Text(more)][1..] == [];
    assert Eval(env, [Text(more)]).Ok?;
    assert [Var(name), Text(more)][1..] == [Text(more)];
  }

  // What the result depends on

  /** The variables a value names, in order. */
  function Names(s: string): seq<string> {
    if s == "" then []
    else if s[0] != '$' then Names(s[1..])
    else if |s| >= 2 && s[1] == '$' then Names(s[2..])
    else
      var n := NameLength(s[1..]);
      if n == 0 then Names(s[1..]) else [s[1..1 + n]] + Names(s[1 + n..])
  }

  function FirstMissing(env: Env, names: seq<string>): Option<string> {
    if names == [] then None
    else if names[0] !in env then Some(names[0])
    else FirstMissing(env, names[1..])
  }

  lemma FirstMissingCons(env: Env, name: string, names: seq<string>)
    ensures FirstMissing(env, [name] + names) == if name !in env then Some(name) else FirstMissing(env, names)
  {
    assert ([name] + names)[1..] == names;
  }

  /** The first missing variable is reported; without one, resolution succeeds. */
  lemma {:induction false} FailsOnFirstMissing(env: Env, s: string)
    ensures match FirstMissing(env, Names(s))
            case Some(name) => Resolve(env, s) == Err(name)
            case None => Resolve(env, s).Ok?
  {
    if s == "" {
    } else if s[0] != '$' {
      FailsOnFirstMissing(env, s[1..]);
    } else if |s| >= 2 && s[1] == '$' {
      FailsOnFirstMissing(env, s[2..]);
    } else {
      var n := NameLength(s[1..]);
      FailsOnFirstMissing(env, s[1 + n..]);
      if n > 0 { FirstMissingCons(env, s[1..1 + n], Names(s[1 + n..])); }
    }
  }

  /** Only the named variables matter. */
  lemma {:induction false} DependsOnNamesOnly(env: Env, env': Env, s: string)
    requires forall name :: name in Names(s) ==>
      (name in env <==> name in env') && (name in env ==> env[name] == env'[name])
    ensures Resolve(env, s) == Resolve(env', s)
  {
    if s == "" {
    } else if s[0] != '$' {
      DependsOnNamesOnly(env, env', s[1..]);
    } else if |s| >= 2 && s[1] == '$' {
      DependsOnNamesOnly(env, env', s[2..]);
    } else {
      var n := NameLength(s[1..]);
      DependsOnNamesOnly(env, env', s[1 + n..]);
    }
  }

  // Separation is needed

  predicate IsPieceNamed(p: Piece) {
    p.Var? ==> p.name != "" && NameLength(p.name) == |p.name|
  }

  /** Every variable has a name the scanner can read. */
  predicate AreNamed(pieces: seq<Piece>) {
    forall i :: 0 <= i < |pieces| ==> IsPieceNamed(pieces[i])
  }

  lemma {:induction false} PassRun(env: Env, run: string, rest: string)
    requires NameLength(run) == |run|
    ensures Resolve(env, run + rest) == Prepend(run, Resolve(env, rest)) && Names(run + rest) == Names(rest)
  {
    if run == "" {
      assert run + rest == rest;
      PrependNothing(Resolve(env, rest));
    } else {
      assert (run + rest)[1..] == run[1..] + rest;
      PassRun(env, run[1..], rest);
      PrependTwice([run[0]], run[1..], Resolve(env, rest));
      assert run == [run[0]] + run[1..];
    }
  }

  lemma {:induction false} NamesEscaped(text: string, rest: string)
    ensures Names(Escape(text) + rest) == Names(rest)
  {
    if text == "" {
      assert Escape(text) + rest == rest;
    } else {
      var head, tail := if text[0] == '$' then "$$" else [text[0]], Escape(text[1..]) + rest;
      Sequences.Associative(head, Escape(text[1..]), rest);
      assert (head + tail)[|head|..] == tail;
      assert head + tail == Escape(text) + rest;
      assert text[0] == '$' ==> (head + tail)[1] == '$';
      NamesEscaped(text[1..], rest);
    }
  }

  lemma NamesAtVariable(s: string)
    requires |s| >= 2 && s[0] == '$' && IsNameChar(s[1])
    ensures var n := NameLength(s[1..]); n > 0 && Names(s) == [s[1..1 + n]] + Names(s[1 + n..])
  {
    assert s[1..][0] == s[1];
  }

  lemma VariableSlices(name: string, rest: string)
    ensures var all := "$" + name + rest;
            all[1..] == name + rest && all[1..1 + |name|] == name && all[1 + |name|..] == rest
  {
  }

  lemma NamesVariable(name: string, rest: string)
    requires name != "" && NameLength(name) == |name| && NameLength(rest) == 0
    ensures Names("$" + name + rest) == [name] + Names(rest)
  {
    var all := "$" + name + rest;
    VariableSlices(name, rest);
    NameThenBreak(name, rest);
    assert IsNameChar(name[0]) && all[1] == name[0];
    NamesAtVariable(all);
  }

  lemma {:induction false} RunThenBreak(s: string)
    ensures NameLength(s[..NameLength(s)]) == NameLength(s) && NameLength(s[NameLength(s)..]) == 0
  {
    if s != "" && IsNameChar(s[0]) {
      var n := NameLength(s);
      RunThenBreak(s[1..]);
      assert s[..n][1..] == s[1..][..n - 1] && s[n..] == s[1..][n - 1..];
    }
  }

  /** A variable before any text: the scanner takes the run of name characters that follows into the name. */
  lemma VariableTakesRun(env: Env, name: string, rest: string)
    requires name != "" && NameLength(name) == |name|
    ensures var n := NameLength(rest);
            var read := name + rest[..n];
            && Names("$" + name + rest) == [read] + Names(rest)
            && (read in env ==> Resolve(env, "$" + name + rest) == Prepend(env[read], Resolve(env, rest[n..])))
            && Resolve(env, rest) == Prepend(rest[..n], Resolve(env, rest[n..]))
  {
    var n := NameLength(rest);
    RunThenBreak(rest);
    NameRun(name, rest[..n]);
    assert "$" + name + rest == "$" + (name + rest[..n]) + rest[n..];
    assert rest == rest[..n] + rest[n..];
    ResolveVariable(env, name + rest[..n], rest[n..]);
    NamesVariable(name + rest[..n], rest[n..]);
    PassRun(env, rest[..n], rest[n..]);
  }

  /** All variables that matter are set, to nothing. */
  ghost predicate IsBlankFor(env: Env, pieces: seq<Piece>) {
    && (forall x :: x in env ==> env[x] == "")
    && (forall x :: x in Names(Render(pieces)) ==> x in env)
    && forall i :: 0 <= i < |pieces| && pieces[i].Var? ==> pieces[i].name in env
  }

  ghost predicate ShortensUnlessSeparated(env: Env, pieces: seq<Piece>) {
    var r, e := Resolve(env, Render(pieces)), Eval(env, pieces);
    r.Ok? && e.Ok? && |r.value| <= |e.value| && (!IsSeparated(pieces) ==> |r.value| < |e.value|)
  }

  lemma TextKeepsShortening(env: Env, text: string, rest: seq<Piece>)
    requires ShortensUnlessSeparated(env, rest)
    ensures ShortensUnlessSeparated(env, [Text(text)] + rest)
  {
    var pieces := [Text(text)] + rest;
    assert pieces[1..] == rest;
    ResolveEscaped(env, text, Render(rest));
  }

  lemma VariableKeepsShortening(env: Env, name: string, rest: seq<Piece>)
    requires ShortensUnlessSeparated(env, rest) && IsPieceNamed(Var(name))
    requires IsBlankFor(env, [Var(name)] + rest)
    ensures ShortensUnlessSeparated(env, [Var(name)] + rest)
  {
    var pieces := [Var(name)] + rest;
    assert pieces[1..] == rest && pieces[0] == Var(name);
    VariableTakesRun(env, name, Render(rest));
    var read := name + Render(rest)[..NameLength(Render(rest))];
    assert read in Names(Render(pieces));
  }

  /** With every variable empty, text swallowed into a name is lost. */
  lemma {:induction false} SwallowedTextIsLost(env: Env, pieces: seq<Piece>)
    requires AreNamed(pieces) && IsBlankFor(env, pieces)
    ensures ShortensUnlessSeparated(env, pieces)
  {
    if pieces != [] {
      var rest := pieces[1..];
      assert pieces == [pieces[0]] + rest && IsPieceNamed(pieces[0]);
      match pieces[0]
      case Text(text) =>
        NamesEscaped(text, Render(rest));
        SwallowedTextIsLost(env, rest);
        TextKeepsShortening(env, text, rest);
      case Var(name) =>
        VariableTakesRun(env, name, Render(rest));
        SwallowedTextIsLost(env, rest);
        VariableKeepsShortening(env, name, rest);
    }
  }

  /** Rendering named pieces resolves to their values in every environment exactly when they are separated. */
  lemma RendersExactlyWhenSeparated(pieces: seq<Piece>)
    requires AreNamed(pieces)
    ensures (forall env: Env :: Resolve(env, Render(pieces)) == Eval(env, pieces)) <==> IsSeparated(pieces)
  {
    if IsSeparated(pieces) {
      forall env: Env ensures Resolve(env, Render(pieces)) == Eval(env, pieces) {
        ResolveRendered(env, pieces);
      }
    } else {
      var named := set i | 0 <= i < |pieces| && pieces[i].Var? :: pieces[i].name;
      var needed := (set n | n in Names(Render(pieces))) + named;
      var env: Env := map x | x in needed :: "";
      SwallowedTextIsLost(env, pieces);
      assert Resolve(env, Render(pieces)) != Eval(env, pieces);
    }
  }
}
