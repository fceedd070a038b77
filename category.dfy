/** The Category aggregate: its name rules, its lifecycle and the object the use cases mutate. */
module Categories {
  import opened Wrappers
  import opened Strings
  import opened Validation

  /** CategoryID.from: an identifier wraps its string as it is, without checks. */
  datatype CategoryId = CategoryId(value: string)

  /** Every field of a category at one moment: what is persisted, and what the
      outputs are built from. Timestamps are integers read from a clock. */
  datatype CategoryRow = CategoryRow(
    id: CategoryId,
    name: Option<string>,
    description: Option<string>,
    active: bool,
    createdAt: int,
    updatedAt: int,
    deletedAt: Option<int>)
  {
    /** The entity invariant: deletedAt is present exactly when the category is
        inactive, and updatedAt never precedes createdAt. */
    predicate Consistent() {
      (deletedAt.Some? <==> !active) && createdAt <= updatedAt
    }
  }

  const NameNullMessage: string := "'name' should not be null"
  const NameEmptyMessage: string := "'name' should not be empty"
  const NameLengthMessage: string := "'name' must be between 3 and 255 characters"
  const NameMinLength: nat := 3
  const NameMaxLength: nat := 255

  /** A name is acceptable when it is present and its trimmed length lies in 3..255. */
  predicate IsValidName(name: Option<string>) {
    name.Some? && NameMinLength <= |Trim(name.value)| <= NameMaxLength
  }

  /** The errors the category validator reports, rules checked in order and the
      first failing rule ending the check: null, then blank, then trimmed length. */
  function NameErrors(name: Option<string>): (errs: seq<Error>)
    ensures |errs| <= 1
    ensures errs == [] <==> IsValidName(name)
  {
    if name.None? then
      [Error(NameNullMessage)]
    else if Trim(name.value) == [] then
      [Error(NameEmptyMessage)]
    else if |Trim(name.value)| > NameMaxLength || |Trim(name.value)| < NameMinLength then
      [Error(NameLengthMessage)]
    else
      []
  }

  /** A null name gives exactly one error, the null one. */
  lemma NullNameError()
    ensures NameErrors(None) == [Error(NameNullMessage)]
  {
  }

  /** A name of nothing but whitespace gives exactly one error, the empty one. */
  lemma BlankNameError(name: string)
    requires IsBlank(name)
    ensures NameErrors(Some(name)) == [Error(NameEmptyMessage)]
  {
  }

  /** A non-blank name whose trimmed length is outside 3..255 gives exactly one
      error, the length one. */
  lemma NameLengthError(name: string)
    requires !IsBlank(name)
    requires |Trim(name)| < NameMinLength || NameMaxLength < |Trim(name)|
    ensures NameErrors(Some(name)) == [Error(NameLengthMessage)]
  {
  }

  /** "Fi " is rejected: the length is measured after trimming. */
  lemma PaddedShortNameRejected()
    ensures NameErrors(Some("Fi ")) == [Error(NameLengthMessage)]
  {
    assert LeadingTrimmable("Fi ") == 0;
    assert TrailingTrimmable("Fi ") == 1 + TrailingTrimmable("Fi");
    assert TrailingTrimmable("Fi") == 0;
    assert Trim("Fi ") == "Fi";
  }

  /** "Fil" is accepted: three characters is the lower bound. */
  lemma ThreeLetterNameAccepted()
    ensures NameErrors(Some("Fil")) == []
  {
    TrimOfTrimmed("Fil");
  }

  /** Category.newCategory, with the generated identifier and the clock reading
      passed in: created and updated now, deleted now exactly when created inactive. */
  function NewRow(id: CategoryId, name: Option<string>, description: Option<string>,
                  active: bool, now: int): (r: CategoryRow)
    ensures r.Consistent()
    ensures r.id == id && r.name == name && r.description == description && r.active == active
    ensures r.createdAt == now && r.updatedAt == now
    ensures active ==> r.deletedAt == None
    ensures !active ==> r.deletedAt == Some(now)
  {
    CategoryRow(id, name, description, active, now, now, if active then None else Some(now))
  }

  /** activate(): active, not deleted, updated now; identity, name, description
      and creation time kept. */
  function Activated(r: CategoryRow, now: int): (a: CategoryRow)
    requires r.updatedAt < now
    ensures r.Consistent() ==> a.Consistent()
    ensures a.active && a.deletedAt == None
    ensures a.updatedAt == now && a.updatedAt > r.updatedAt
    ensures a.id == r.id && a.createdAt == r.createdAt
    ensures a.name == r.name && a.description == r.description
  {
    r.(active := true, deletedAt := None, updatedAt := now)
  }

  /** deactivate(): inactive, deleted now, updated now; identity, name,
      description and creation time kept. */
  function Deactivated(r: CategoryRow, now: int): (d: CategoryRow)
    requires r.updatedAt < now
    ensures r.Consistent() ==> d.Consistent()
    ensures !d.active && d.deletedAt == Some(now)
    ensures d.updatedAt == now && d.updatedAt > r.updatedAt
    ensures d.id == r.id && d.createdAt == r.createdAt
    ensures d.name == r.name && d.description == r.description
  {
    r.(active := false, deletedAt := Some(now), updatedAt := now)
  }

  /** update(name, description, active): the new name, description and flag, with
      deletedAt recomputed from the flag; no validation, so a null name is kept. */
  function Updated(r: CategoryRow, name: Option<string>, description: Option<string>,
                   active: bool, now: int): (u: CategoryRow)
    requires r.updatedAt < now
    ensures r.Consistent() ==> u.Consistent()
    ensures u.name == name && u.description == description && u.active == active
    ensures u.deletedAt.Some? <==> !active
    ensures u.updatedAt == now && u.updatedAt > r.updatedAt
    ensures u.id == r.id && u.createdAt == r.createdAt
  {
    var flipped := if active then Activated(r, now) else Deactivated(r, now);
    flipped.(name := name, description := description)
  }

  /** The three ways a category is changed after creation. */
  datatype Mutation =
    | Activate
    | Deactivate
    | Update(name: Option<string>, description: Option<string>, active: bool)

  /** One mutation at clock reading now: the invariant is kept, identity and
      creation time are untouched, and the update time becomes now. */
  function Apply(r: CategoryRow, m: Mutation, now: int): (a: CategoryRow)
    requires r.updatedAt < now
    ensures r.Consistent() ==> a.Consistent()
    ensures a.id == r.id && a.createdAt == r.createdAt && a.updatedAt == now
  {
    match m
    case Activate => Activated(r, now)
    case Deactivate => Deactivated(r, now)
    case Update(name, description, active) => Updated(r, name, description, active, now)
  }

  /** The clock readings of successive mutations strictly increase, starting after t. */
  predicate ClockAfter(t: int, times: seq<int>) {
    && (times != [] ==> t < times[0])
    && forall k :: 0 < k < |times| ==> times[k - 1] < times[k]
  }

  /** After the first reading the clock still runs: the remaining readings follow
      the first one, and each other. */
  lemma ClockAfterTail(times: seq<int>)
    requires times != []
    requires forall k :: 0 < k < |times| ==> times[k - 1] < times[k]
    ensures ClockAfter(times[0], times[1..])
  {
    forall k | 0 < k < |times[1..]|
      ensures times[1..][k - 1] < times[1..][k]
    {
      assert times[1..][k] == times[k + 1];
    }
    if |times| > 1 {
      assert times[0] < times[1];
    }
  }

  /** The row after applying the mutations in order, each at its own clock reading. */
  function Replay(r: CategoryRow, steps: seq<Mutation>, times: seq<int>): CategoryRow
    requires |steps| == |times|
    requires ClockAfter(r.updatedAt, times)
    decreases |steps|
  {
    if steps == [] then
      r
    else
      assert r.updatedAt < times[0];
      var next := Apply(r, steps[0], times[0]);
      ClockAfterTail(times);
      Replay(next, steps[1..], times[1..])
  }

  /** Over any lifecycle driven by a strictly increasing clock the invariant holds
      throughout, the identifier and creation time never change, and the last
      update time is the last clock reading, strictly after the first. */
  lemma {:induction false} ReplayKeepsInvariant(r: CategoryRow, steps: seq<Mutation>, times: seq<int>)
    requires |steps| == |times|
    requires ClockAfter(r.updatedAt, times)
    requires r.Consistent()
    ensures Replay(r, steps, times).Consistent()
    ensures Replay(r, steps, times).id == r.id
    ensures Replay(r, steps, times).createdAt == r.createdAt
    ensures steps == [] ==> Replay(r, steps, times) == r
    ensures steps != [] ==> Replay(r, steps, times).updatedAt == times[|times| - 1] > r.updatedAt
    decreases |steps|
  {
    if steps != [] {
      assert r.updatedAt < times[0];
      var next := Apply(r, steps[0], times[0]);
      ClockAfterTail(times);
      ReplayKeepsInvariant(next, steps[1..], times[1..]);
      if |steps| > 1 {
        assert times[1..][|times[1..]| - 1] == times[|times| - 1];
      }
    }
  }

  /** The Category aggregate: identity and creation time are fixed, the rest is
      changed in place by activate, deactivate and update, each of which returns
      the receiver itself. */
  class Category {
    const id: CategoryId
    var name: Option<string>
    var description: Option<string>
    var active: bool
    const createdAt: int
    var updatedAt: int
    var deletedAt: Option<int>

    /** The current value of every field. */
    function Snapshot(): CategoryRow
      reads this
    {
      CategoryRow(id, name, description, active, createdAt, updatedAt, deletedAt)
    }

    ghost predicate Valid()
      reads this
    {
      Snapshot().Consistent()
    }

    /** Category.newCategory(name, description, active), with the fresh identifier
        and the clock reading passed in. */
    constructor NewCategory(anId: CategoryId, aName: Option<string>, aDescription: Option<string>,
                            isActive: bool, now: int)
      ensures Valid()
      ensures Snapshot() == NewRow(anId, aName, aDescription, isActive, now)
    {
      id := anId;
      name := aName;
      description := aDescription;
      active := isActive;
      createdAt := now;
      updatedAt := now;
      deletedAt := if isActive then None else Some(now);
    }

    /** The aggregate rebuilt from a stored row, field by field. */
    constructor FromRow(row: CategoryRow)
      ensures Snapshot() == row
    {
      id := row.id;
      name := row.name;
      description := row.description;
      active := row.active;
      createdAt := row.createdAt;
      updatedAt := row.updatedAt;
      deletedAt := row.deletedAt;
    }

    method Activate(now: int) returns (self: Category)
      requires updatedAt < now
      modifies this
      ensures self == this
      ensures Snapshot() == Activated(old(Snapshot()), now)
      ensures old(Valid()) ==> Valid()
    {
      deletedAt := None;
      active := true;
      updatedAt := now;
      self := this;
    }

    method Deactivate(now: int) returns (self: Category)
      requires updatedAt < now
      modifies this
      ensures self == this
      ensures Snapshot() == Deactivated(old(Snapshot()), now)
      ensures old(Valid()) ==> Valid()
    {
      deletedAt := Some(now);
      active := false;
      updatedAt := now;
      self := this;
    }

    method Update(aName: Option<string>, aDescription: Option<string>, isActive: bool, now: int)
      returns (self: Category)
      requires updatedAt < now
      modifies this
      ensures self == this
      ensures Snapshot() == Updated(old(Snapshot()), aName, aDescription, isActive, now)
      ensures old(Valid()) ==> Valid()
    {
      if isActive {
        self := Activate(now);
      } else {
        self := Deactivate(now);
      }
      name := aName;
      description := aDescription;
    }

    /** validate(handler): only the name is checked; the description and the flag
        are unconstrained. An accumulating handler ends up with the name's errors
        appended; a fail-fast one raises with the first of them and records nothing. */
    method Validate(handler: ValidationHandler) returns (raised: Option<Exception>)
      modifies handler
      ensures handler.strategy == Accumulate ==>
                raised == None && handler.errors == old(handler.errors) + NameErrors(name)
      ensures handler.strategy == FailFast ==> handler.errors == old(handler.errors)
      ensures handler.strategy == FailFast ==>
                raised == if NameErrors(name) == [] then None else Some(DomainWith(NameErrors(name)[0]))
    {
      if name.None? {
        raised := handler.Append(Error(NameNullMessage));
        return;
      }
      var trimmed := Trim(name.value);
      if trimmed == [] {
        raised := handler.Append(Error(NameEmptyMessage));
        return;
      }
      if |trimmed| > NameMaxLength || |trimmed| < NameMinLength {
        raised := handler.Append(Error(NameLengthMessage));
        return;
      }
      raised := None;
    }
  }
}
