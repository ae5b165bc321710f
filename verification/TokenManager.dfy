/**
 * src/token_manager.rs: the bodies of the DCR methods, each run under the write lock, on
 * the record file and its temporary file; and the union of OAuth scopes.
 */
module TokenManager {
  import opened Wrappers
  import opened DcrRecords
  import opened Words

  /** Which system calls fail during one operation. */
  datatype Faults = Faults(read: bool, write: bool, chmod: bool, rename: bool, unlink: bool)

  const NO_FAULTS := Faults(false, false, false, false, false)

  class Store {
    var file: File
    var tmp: File

    constructor (file: File, tmp: File)
      ensures this.file == file && this.tmp == tmp
    {
      this.file, this.tmp := file, tmp;
    }

    /** Write the temporary file, set its mode, rename it over the record. */
    method SaveLocked(creds: DcrCredentials, faults: Faults) returns (ok: bool)
      modifies this
      ensures ok <==> !faults.write && !faults.chmod && !faults.rename
      ensures file == if ok then Whole(creds) else old(file)
      ensures tmp == if ok then Absent else if faults.write then Torn else Whole(creds)
    {
      tmp := Torn;
      if faults.write { return false; }
      tmp := Whole(creds);
      if faults.chmod || faults.rename { return false; }
      file, tmp := tmp, Absent;
      return true;
    }

    method DeleteLocked(faults: Faults) returns (ok: bool)
      modifies this`file
      ensures ok <==> !faults.unlink || old(file).Absent?
      ensures file == if ok then Absent else old(file)
    {
      if file.Absent? { return true; }
      if faults.unlink { return false; }
      file := Absent;
      return true;
    }

    method LoadDcr(faults: Faults) returns (r: Result<Option<DcrCredentials>, string>)
      ensures r.Ok? <==> (file.Absent? || (file.Whole? && !faults.read))
      ensures r.Ok? ==> OutcomeOf(Load, file) == Record(r.value)
    {
      match file
      case Absent => return Ok(None);
      case Torn => return Err("JSON");
      case Whole(creds) => if faults.read { return Err("IO"); } else { return Ok(Some(creds)); }
    }

    method SaveDcr(creds: DcrCredentials, faults: Faults) returns (ok: bool)
      modifies this
      ensures file == if ok then Apply(Save(creds), old(file)) else old(file)
      ensures faults == NO_FAULTS ==> ok
    {
      ok := SaveLocked(creds, faults);
    }

    method DeleteDcr(faults: Faults) returns (ok: bool)
      modifies this
      ensures file == if ok then Apply(Delete, old(file)) else old(file)
      ensures tmp == old(tmp)
      ensures faults == NO_FAULTS ==> ok
    {
      ok := DeleteLocked(faults);
    }

    /** Keeping the loaded record writes nothing at all. */
    method UpdateDcr(update: Updater, faults: Faults) returns (r: Result<Option<DcrCredentials>, string>)
      modifies this
      ensures file == if r.Ok? then Apply(Update(update), old(file)) else old(file)
      ensures r.Ok? ==> OutcomeOf(Update(update), old(file)) == Record(r.value)
      ensures faults == NO_FAULTS ==> (r.Ok? <==> Succeeds(Update(update), old(file)))
      ensures r.Ok? && Apply(Update(update), old(file)) == old(file) ==> tmp == old(tmp)
    {
      var existing := LoadDcr(faults);
      if existing.Err? { return existing; }
      var decision := update(existing.value);
      if decision.Err? { return decision; }
      match decision.value
      case Some(creds) =>
        if existing.value != Some(creds) {
          var ok := SaveLocked(creds, faults);
          if !ok { return Err("IO"); }
        }
        return Ok(Some(creds));
      case None =>
        var ok := DeleteLocked(faults);
        return if ok then Ok(None) else Err("IO");
    }

    method ClearDcrRequestingClient(expected: string, faults: Faults) returns (r: Result<bool, string>)
      modifies this
      ensures file == if r.Ok? then Apply(Clear(expected), old(file)) else old(file)
      ensures r.Ok? ==> OutcomeOf(Clear(expected), old(file)) == Cleared(r.value)
      ensures faults == NO_FAULTS ==> (r.Ok? <==> Succeeds(Clear(expected), old(file)))
      ensures r == Ok(false) ==> tmp == old(tmp)
    {
      var loaded := LoadDcr(faults);
      if loaded.Err? { return Err(loaded.error); }
      if loaded.value.None? { return Ok(false); }
      var existing := loaded.value.value;
      if !existing.registeredViaDcr { return Ok(false); }
      if existing.clientId != expected { return Ok(false); }
      var cleared := DcrCredentials(
        "", None, 0, existing.registeredAt, None,
        existing.resourceClientId, existing.resourceClientSecret, existing.registeredViaDcr);
      var ok := SaveLocked(cleared, faults);
      return if ok then Ok(true) else Err("IO");
    }
  }

  // Scopes

  predicate IsScope(s: string) {
    s != "" && forall i :: 0 <= i < |s| ==> !IsSpace(s[i])
  }

  function Join(scopes: seq<string>): string {
    if scopes == [] then ""
    else if |scopes| == 1 then scopes[0]
    else scopes[0] + " " + Join(scopes[1..])
  }

  predicate AreScopes(scopes: seq<string>) {
    forall i :: 0 <= i < |scopes| ==> IsScope(scopes[i])
  }

  lemma {:induction false} SplitGivesScopes(current: string, s: string)
    requires current == "" || IsScope(current)
    ensures AreScopes(SplitFrom(current, s))
    decreases |s|
  {
    if s != "" {
      SplitGivesScopes(if IsSpace(s[0]) then "" else current + [s[0]], s[1..]);
    }
  }

  /** A scope is read up to the space or the end that follows it. */
  lemma {:induction false} SplitScopeFirst(current: string, scope: string, rest: string)
    requires (forall i :: 0 <= i < |scope| ==> !IsSpace(scope[i])) && current + scope != ""
    requires rest == "" || rest[0] == ' '
    ensures SplitFrom(current, scope + rest) == [current + scope]
            + (if rest == "" then [] else SplitFrom("", rest[1..]))
    decreases |scope|
  {
    if scope == "" {
      assert scope + rest == rest && current + scope == current;
    } else {
      assert (scope + rest)[1..] == scope[1..] + rest;
      assert current + [scope[0]] + scope[1..] == current + scope;
      SplitScopeFirst(current + [scope[0]], scope[1..], rest);
    }
  }

  lemma SplitOneScope(scope: string)
    requires IsScope(scope)
    ensures SplitWhitespace(scope) == [scope]
  {
    SplitScopeFirst("", scope, "");
    assert scope + "" == scope && "" + scope == scope;
  }

  lemma SplitFirstScope(scope: string, rest: string)
    requires IsScope(scope)
    ensures SplitWhitespace(scope + " " + rest) == [scope] + SplitWhitespace(rest)
  {
    SplitScopeFirst("", scope, " " + rest);
    assert scope + " " + rest == scope + (" " + rest);
    assert (" " + rest)[1..] == rest && "" + scope == scope;
  }

  lemma {:induction false} SplitInvertsJoin(scopes: seq<string>)
    requires AreScopes(scopes)
    ensures SplitWhitespace(Join(scopes)) == scopes
  {
    if |scopes| == 1 {
      SplitOneScope(scopes[0]);
    } else if scopes != [] {
      SplitInvertsJoin(scopes[1..]);
      SplitFirstScope(scopes[0], Join(scopes[1..]));
    }
  }

  /** `s` without the later occurrences of each element. */
  function Distinct(s: seq<string>): seq<string> {
    if s == [] then []
    else
      var init, last := Distinct(s[..|s| - 1]), s[|s| - 1];
      if last in init then init else init + [last]
  }

  lemma {:induction false} DistinctMeaning(s: seq<string>)
    ensures forall x :: x in Distinct(s) <==> x in s
    ensures forall i, j :: 0 <= i < j < |Distinct(s)| ==> Distinct(s)[i] != Distinct(s)[j]
  {
    if s != [] {
      DistinctMeaning(s[..|s| - 1]);
      assert forall x :: x in s <==> x in s[..|s| - 1] || x == s[|s| - 1];
    }
  }

  /** Prior scopes first, then the requested ones not already present. */
  method MergeScopes(prior: Option<string>, requested: string) returns (merged: string)
    ensures var granted := SplitWhitespace(if prior.Some? then prior.value else "");
            SplitWhitespace(merged) == Distinct(granted + SplitWhitespace(requested))
  {
    var granted := SplitWhitespace(if prior.Some? then prior.value else "");
    var all := granted + SplitWhitespace(requested);
    var out: seq<string> := [];
    for n := 0 to |all|
      invariant out == Distinct(all[..n])
    {
      assert all[..n + 1][..n] == all[..n];
      if all[n] !in out {
        out := out + [all[n]];
      }
    }
    assert all[..|all|] == all;
    SplitGivesScopes("", if prior.Some? then prior.value else "");
    SplitGivesScopes("", requested);
    DistinctMeaning(all);
    forall i | 0 <= i < |out| ensures IsScope(out[i]) {
      assert out[i] in all;
    }
    SplitInvertsJoin(out);
    merged := Join(out);
  }

  lemma {:induction false} DistinctAbsorbs(s: seq<string>, more: seq<string>)
    requires forall x :: x in more ==> x in s
    ensures Distinct(s + more) == Distinct(s)
  {
    if more == [] {
      assert s + more == s;
    } else {
      assert (s + more)[..|s + more| - 1] == s + more[..|more| - 1];
      DistinctAbsorbs(s, more[..|more| - 1]);
      DistinctMeaning(s);
      assert more[|more| - 1] in more;
    }
  }

  lemma {:induction false} DistinctOfDistinct(s: seq<string>)
    requires forall i, j :: 0 <= i < j < |s| ==> s[i] != s[j]
    ensures Distinct(s) == s
  {
    if s != [] {
      DistinctOfDistinct(s[..|s| - 1]);
    }
  }

  /** Stepping up again to scopes already granted changes nothing; prior scopes keep their order. */
  lemma MergingAgainChangesNothing(prior: seq<string>, requested: seq<string>)
    ensures var merged := Distinct(prior + requested);
            Distinct(merged + requested) == merged && Distinct(prior) <= merged
  {
    var merged := Distinct(prior + requested);
    DistinctMeaning(prior + requested);
    DistinctAbsorbs(merged, requested);
    DistinctOfDistinct(merged);
    DistinctExtends(prior, requested);
  }

  lemma {:induction false} DistinctExtends(s: seq<string>, more: seq<string>)
    ensures Distinct(s) <= Distinct(s + more)
  {
    if more == [] {
      assert s + more == s;
    } else {
      assert (s + more)[..|s + more| - 1] == s + more[..|more| - 1];
      DistinctExtends(s, more[..|more| - 1]);
    }
  }
}
