/** Splitting at white space. */
module Words {
  /** The Unicode White_Space property. */
  predicate IsSpace(c: char) {
    || c == ' ' || '\t' <= c <= '\r' || c == '\U{85}' || c == '\U{A0}' || c == '\U{1680}'
    || '\U{2000}' <= c <= '\U{200A}' || c == '\U{2028}' || c == '\U{2029}'
    || c == '\U{202F}' || c == '\U{205F}' || c == '\U{3000}'
  }

  /** The maximal runs of non-space characters of `current + s`, `current` holding none. */
  function SplitFrom(current: string, s: string): seq<string>
    decreases |s|
  {
    if s == "" then (if current == "" then [] else [current])
    else if IsSpace(s[0]) then (if current == "" then [] else [current]) + SplitFrom("", s[1..])
    else SplitFrom(current + [s[0]], s[1..])
  }

  function SplitWhitespace(s: string): seq<string> {
    SplitFrom("", s)
  }
}
