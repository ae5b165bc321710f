/**
 * src/token_manager.rs: the DCR credential record of one endpoint, what each operation
 * does to the file that holds it, and what clearing the requesting client keeps.
 */
module DcrRecords {
  import opened Wrappers

  datatype DcrCredentials = DcrCredentials(
    clientId: string, clientSecret: Option<string>, clientSecretExpiresAt: nat, registeredAt: nat,
    issuer: Option<string>, resourceClientId: Option<string>, resourceClientSecret: Option<string>,
    registeredViaDcr: bool)

  /** A credential file: missing, not parseable, or holding a record. */
  datatype File = Absent | Torn | Whole(creds: DcrCredentials)

  type Updater = Option<DcrCredentials> -> Result<Option<DcrCredentials>, string>

  datatype Op =
    | Save(creds: DcrCredentials)
    | Delete
    | Update(f: Updater)
    | Clear(expectedClientId: string)
    | Load

  datatype Outcome = Unit | Record(creds: Option<DcrCredentials>) | Cleared(cleared: bool) | Failed

  function Read(file: File): Option<DcrCredentials> {
    if file.Whole? then Some(file.creds) else None
  }

  function AsFile(creds: Option<DcrCredentials>): File {
    if creds.Some? then Whole(creds.value) else Absent
  }

  predicate IsClearable(creds: DcrCredentials, expected: string) {
    creds.registeredViaDcr && creds.clientId == expected
  }

  function ClearRequestingPair(c: DcrCredentials): DcrCredentials {
    DcrCredentials("", None, 0, c.registeredAt, None, c.resourceClientId, c.resourceClientSecret, c.registeredViaDcr)
  }

  /** Does the operation go through on this file, when no system call fails? */
  predicate Succeeds(op: Op, file: File) {
    match op
    case Save(_) | Delete => true
    case Update(f) => !file.Torn? && f(Read(file)).Ok?
    case Clear(_) | Load => !file.Torn?
  }

  /** The file after a successful operation. */
  function Apply(op: Op, file: File): File {
    match op
    case Save(creds) => Whole(creds)
    case Delete => Absent
    case Update(f) => if Succeeds(op, file) then AsFile(f(Read(file)).value) else file
    case Clear(expected) =>
      if file.Whole? && IsClearable(file.creds, expected) then Whole(ClearRequestingPair(file.creds)) else file
    case Load => file
  }

  /** What a successful operation returns. */
  function OutcomeOf(op: Op, file: File): Outcome {
    if !Succeeds(op, file) then Failed
    else
      match op
      case Save(_) | Delete => Unit
      case Update(f) => Record(f(Read(file)).value)
      case Clear(expected) => Cleared(file.Whole? && IsClearable(file.creds, expected))
      case Load => Record(Read(file))
  }

  function Fold(file: File, ops: seq<Op>): File {
    if ops == [] then file else Apply(ops[|ops| - 1], Fold(file, ops[..|ops| - 1]))
  }

  /** Only a file that was damaged from the start can be damaged. */
  lemma {:induction false} FoldIsNeverTorn(file: File, ops: seq<Op>)
    requires !file.Torn?
    ensures !Fold(file, ops).Torn?
  {
    if ops != [] { FoldIsNeverTorn(file, ops[..|ops| - 1]); }
  }

  // Clearing the requesting client

  /** What the invalid-client self-heal may touch, and what it may not. */
  lemma ClearTouchesOnlyTheRequestingPair(file: File, expected: string)
    ensures var after := Apply(Clear(expected), file);
            && (OutcomeOf(Clear(expected), file) == Cleared(true) <==>
              file.Whole? && file.creds.registeredViaDcr && file.creds.clientId == expected)
            && (OutcomeOf(Clear(expected), file) != Cleared(true) ==> after == file)
            && (file.Whole? <==> after.Whole?)
            && (file.Whole? ==>
                  && after.creds.resourceClientId == file.creds.resourceClientId
                  && after.creds.resourceClientSecret == file.creds.resourceClientSecret
                  && after.creds.registeredViaDcr == file.creds.registeredViaDcr
                  && after.creds.registeredAt == file.creds.registeredAt)
            && (file.Whole? && IsClearable(file.creds, expected) ==>
                  after.creds.clientId == "" && after.creds.clientSecret == None && after.creds.issuer == None)
            && Apply(Clear(expected), after) == after
  {
  }

  predicate SameResourcePair(c: DcrCredentials, d: DcrCredentials) {
    c.resourceClientId == d.resourceClientId && c.resourceClientSecret == d.resourceClientSecret
  }

  predicate DiffersOnlyInResourcePair(c: DcrCredentials, d: DcrCredentials) {
    d == c.(resourceClientId := d.resourceClientId, resourceClientSecret := d.resourceClientSecret)
  }

  /** The record the closure makes of `c`; `c` itself when it fails or deletes. */
  function Updated(f: Updater, c: DcrCredentials): DcrCredentials {
    if f(Some(c)).Ok? && f(Some(c)).value.Some? then f(Some(c)).value.value else c
  }

  /** The closure keeps an existing record, and reads and writes only its resource pair. */
  ghost predicate IsResourceOnly(f: Updater) {
    && (forall c: DcrCredentials :: f(Some(c)).Ok? && f(Some(c)).value.Some?)
    && (forall c: DcrCredentials :: DiffersOnlyInResourcePair(c, Updated(f, c)))
    && (forall c: DcrCredentials, d: DcrCredentials ::
          SameResourcePair(c, d) ==> SameResourcePair(Updated(f, c), Updated(f, d)))
  }

  lemma ClearCommutesWithResourceUpdate(c: DcrCredentials, expected: string, f: Updater)
    requires IsResourceOnly(f)
    ensures Apply(Clear(expected), Apply(Update(f), Whole(c))) == Apply(Update(f), Apply(Clear(expected), Whole(c)))
    ensures Apply(Update(f), Whole(c)).Whole?
  {
    assert Apply(Update(f), Whole(c)) == Whole(Updated(f, c));
    assert DiffersOnlyInResourcePair(c, Updated(f, c));
    if IsClearable(c, expected) {
      var d := ClearRequestingPair(c);
      assert Apply(Update(f), Whole(d)) == Whole(Updated(f, d));
      assert DiffersOnlyInResourcePair(d, Updated(f, d));
      assert SameResourcePair(c, d) && SameResourcePair(Updated(f, c), Updated(f, d));
    }
  }

  ghost predicate IsHealingLog(ops: seq<Op>, expected: string) {
    forall i :: 0 <= i < |ops| ==> ops[i] == Clear(expected) || (ops[i].Update? && IsResourceOnly(ops[i].f))
  }

  ghost function UpdatesOf(ops: seq<Op>): seq<Op> {
    if ops == [] then []
    else UpdatesOf(ops[..|ops| - 1]) + (if ops[|ops| - 1].Update? then [ops[|ops| - 1]] else [])
  }

  ghost predicate ClearsSomewhere(ops: seq<Op>) {
    exists i :: 0 <= i < |ops| && ops[i].Clear?
  }

  lemma FoldSnoc(file: File, ops: seq<Op>, op: Op)
    ensures Fold(file, ops + [op]) == Apply(op, Fold(file, ops))
  {
    assert (ops + [op])[..|ops|] == ops;
  }

  lemma ClearsSomewhereSnoc(ops: seq<Op>, op: Op)
    ensures ClearsSomewhere(ops + [op]) <==> ClearsSomewhere(ops) || op.Clear?
  {
    var all := ops + [op];
    assert forall i :: 0 <= i < |ops| ==> all[i] == ops[i];
    assert all[|ops|] == op;
  }

  lemma UpdatesOfSnoc(ops: seq<Op>, op: Op)
    ensures UpdatesOf(ops + [op]) == UpdatesOf(ops) + (if op.Update? then [op] else [])
  {
    assert (ops + [op])[..|ops|] == ops;
  }

  /** The record of the updates alone, cleared if any self-heal ran. */
  ghost function Healed(file: File, ops: seq<Op>, expected: string): File {
    if ClearsSomewhere(ops) then Apply(Clear(expected), Fold(file, UpdatesOf(ops))) else Fold(file, UpdatesOf(ops))
  }

  lemma HealedSnoc(file: File, ops: seq<Op>, op: Op, expected: string)
    requires Fold(file, UpdatesOf(ops)).Whole?
    requires op == Clear(expected) || (op.Update? && IsResourceOnly(op.f))
    ensures Healed(file, ops + [op], expected) == Apply(op, Healed(file, ops, expected))
    ensures Fold(file, UpdatesOf(ops + [op])).Whole?
  {
    var updated := Fold(file, UpdatesOf(ops));
    ClearsSomewhereSnoc(ops, op);
    UpdatesOfSnoc(ops, op);
    if op.Update? {
      FoldSnoc(file, UpdatesOf(ops), op);
      ClearCommutesWithResourceUpdate(updated.creds, expected, op.f);
    } else {
      assert UpdatesOf(ops) + [] == UpdatesOf(ops);
      ClearTouchesOnlyTheRequestingPair(updated, expected);
    }
  }

  /** However self-heals and resource updates interleave, the record is the healed one. */
  lemma {:induction false} HealingIsIndependentOfOrder(c: DcrCredentials, ops: seq<Op>, expected: string)
    requires IsHealingLog(ops, expected)
    ensures Fold(Whole(c), ops) == Healed(Whole(c), ops, expected)
    ensures Fold(Whole(c), UpdatesOf(ops)).Whole?
  {
    if ops != [] {
      var before, last := ops[..|ops| - 1], ops[|ops| - 1];
      assert ops == before + [last];
      HealingIsIndependentOfOrder(c, before, expected);
      HealedSnoc(Whole(c), before, last, expected);
      FoldSnoc(Whole(c), before, last);
    }
  }
}
