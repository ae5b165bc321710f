/**
 * src/js_sandbox.rs, `ToolDoc::from_tool`: the search document the relay derives from a tool,
 * and a wrong search result with it.
 */
module SearchDocs {
  import opened Wrappers
  import opened Ascii
  import opened Words
  import opened Tools
  import Identifier
  import Prefix
  import opened SearchRanking
  import opened SearchCache
  import opened SearchMixture

  function TrimStart(s: string): string {
    if s != "" && !IsAlphanumeric(s[0]) then TrimStart(s[1..]) else s
  }

  function TrimEnd(s: string): string {
    if s != "" && !IsAlphanumeric(s[|s| - 1]) then TrimEnd(s[..|s| - 1]) else s
  }

  /** Each word without the punctuation around it; words of punctuation only are dropped. */
  function TrimWords(words: seq<string>): seq<string> {
    if words == [] then []
    else
      var word := TrimEnd(TrimStart(words[0]));
      (if word == "" then [] else [word]) + TrimWords(words[1..])
  }

  /** The part of a tool name before the first delimiter, if there is one. */
  function EndpointPart(name: string): string {
    if Prefix.HasDelimiter(name) then name[..Prefix.FindDelimiter(name)] else ""
  }

  ghost function TokensOfAll(names: seq<string>): seq<string> {
    if names == [] then [] else Identifier.Tokens(names[0]) + TokensOfAll(names[1..])
  }

  ghost function FromTool(tool: ToolInfo): ToolDoc {
    var description := if tool.description.Some? then Lower(tool.description.value) else "";
    ToolDoc(
      Lower(tool.name), Identifier.Tokens(tool.name), description, TrimWords(SplitWhitespace(description)),
      Identifier.Tokens(EndpointPart(tool.name)), TokensOfAll(tool.properties))
  }

  /** A tool of which only the name is known. */
  function Bare(name: string): ToolInfo {
    ToolInfo(name, None, [], None)
  }

  lemma NoTokens()
    ensures Identifier.Tokens("") == []
  {
    var spans: seq<Identifier.Span> := [];
    assert Identifier.IsSplit("", spans, 0) && Identifier.TokensOf("", spans) == [];
    Identifier.TokensAre("", []);
  }

  /** The document of a bare tool whose name is one lower-case letter. */
  lemma BareLetter(name: string)
    requires |name| == 1 && IsLowerCase(name[0])
    ensures FromTool(Bare(name)) == ToolDoc(name, [name], "", [], [], [])
  {
    assert !Prefix.HasDelimiter(name);
    NoTokens();
    Identifier.WholeStringIsToken(name);
    Identifier.TokensAre(name, [name]);
    assert Lower(name) == name;
    assert SplitWhitespace("") == [];
  }

  lemma LetterMatches(dist: Distance, q: string, name: string)
    requires |q| == 1 && |name| == 1 && IsLowerCase(name[0])
    ensures MatchesAny(dist, [q], FromTool(Bare(name))) <==> q == name
  {
    BareLetter(name);
    var doc := FromTool(Bare(name));
    assert q in [q] && forall p :: p in [q] ==> p == q;
    if q == name {
      assert q in doc.nameTokens && ScoreQueryToken(dist, q, doc) > 0;
    } else {
      assert q[0] != name[0];
      assert !Contains(name, q) && !Contains("", q);
      assert forall t :: t in doc.nameTokens ==> t == name;
      assert !(q <= name);
      assert ScoreQueryToken(dist, q, doc) == 0;
    }
  }

  /**
   * One tool `x` gives way to one tool `y`. With the source's own documents, and whatever the
   * edit distance, some run then returns a wrong page.
   */
  lemma RenamedToolIsFoundUnderOldName(dist: Distance, x: string, y: string)
    requires |x| == |y| == 1 && IsLowerCase(x[0]) && IsLowerCase(y[0]) && x != y
    ensures CanServeWrongResult([[Bare(x)], [Bare(y)]], dist, t => FromTool(t))
  {
    var docOf := t => FromTool(t);
    var vs := [[Bare(x)], [Bare(y)]];
    LetterMatches(dist, x, x);
    LetterMatches(dist, x, y);
    assert MatchesAny(dist, [x], docOf(vs[0][0])) != MatchesAny(dist, [x], docOf(vs[1][0]));
    IndexServesWhen(dist, docOf, vs[0], vs[1]);
    assert IsConfusable(vs, dist, docOf);
    WrongResultsExactly(vs, dist, docOf);
  }
}
