/**
 * The customer registry: an ordered sequence of customer records with add,
 * exists, remove and three searches. The pure functions below say what each
 * operation does to, or reads from, the sequence; the class CustomerService
 * performs the operations step by step on its own field and is proved to agree
 * with them.
 */
module Registry {
  import opened Wrappers
  import opened Text
  import opened Filtering
  import opened Customers

  /** The two ways adding a customer can fail. */
  datatype AddError = MissingName | DuplicateCustomer

  /** The text of the error the registry returns; each text names exactly one kind. */
  function Message(e: AddError): (r: string)
    ensures r == "mandatory name parameter is missing" <==> e == MissingName
    ensures r == "customer already exists" <==> e == DuplicateCustomer
  {
    match e
    case MissingName => "mandatory name parameter is missing"
    case DuplicateCustomer => "customer already exists"
  }

  /** The error an add returns (None for success) together with the sequence it leaves. */
  datatype AddResult = AddResult(err: Option<AddError>, customers: seq<Customer>)

  /** Some stored record carries exactly this name pair. */
  predicate HasName(s: seq<Customer>, firstName: string, lastName: string)
  {
    exists i :: 0 <= i < |s| && SameName(s[i], firstName, lastName)
  }

  /**
   * Adding: a blank first or last name is refused before duplicates are looked
   * for; a name pair already stored is refused whatever the birthday; otherwise
   * the record, built from the untrimmed names, goes at the end.
   */
  function Added(s: seq<Customer>, firstName: string, lastName: string, birthday: Time): AddResult
  {
    if TrimSpace(firstName) == "" || TrimSpace(lastName) == "" then
      AddResult(Some(MissingName), s)
    else if HasName(s, firstName, lastName) then
      AddResult(Some(DuplicateCustomer), s)
    else
      AddResult(None, s + [Customer(firstName, lastName, birthday)])
  }

  /** The outcome of an add, case by case, with blank meaning all white space. */
  lemma AddedCases(s: seq<Customer>, firstName: string, lastName: string, birthday: Time)
    ensures var r := Added(s, firstName, lastName, birthday);
      && (r.err == Some(MissingName) <==> AllSpace(firstName) || AllSpace(lastName))
      && (r.err == Some(DuplicateCustomer) <==>
          !AllSpace(firstName) && !AllSpace(lastName) && HasName(s, firstName, lastName))
      && (r.err.Some? ==> r.customers == s)
      && (r.err.None? ==>
          |r.customers| == |s| + 1 && r.customers[..|s|] == s &&
          r.customers[|s|] == Customer(firstName, lastName, birthday))
  {
  }

  /** A record removal targets: same name pair and same birthday. */
  predicate Matches(c: Customer, firstName: string, lastName: string, birthday: Time)
  {
    SameName(c, firstName, lastName) && c.birthday == birthday
  }

  /** What a removal leaves: every record that does not match, in stored order. */
  function Removed(s: seq<Customer>, firstName: string, lastName: string, birthday: Time): seq<Customer>
  {
    Filter(s, c => !Matches(c, firstName, lastName, birthday))
  }

  /** The records with this exact name pair, in stored order. */
  function ByName(s: seq<Customer>, firstName: string, lastName: string): seq<Customer>
  {
    Filter(s, c => SameName(c, firstName, lastName))
  }

  /** The first record, in stored order, with this exact name pair. */
  function FirstByName(s: seq<Customer>, firstName: string, lastName: string): (r: Option<Customer>)
    ensures r.None? <==> !HasName(s, firstName, lastName)
    ensures r.Some? ==> r.value in s && SameName(r.value, firstName, lastName)
  {
    if s == [] then None
    else if SameName(s[0], firstName, lastName) then Some(s[0])
    else
      var r := FirstByName(s[1..], firstName, lastName);
      assert HasName(s, firstName, lastName) ==> HasName(s[1..], firstName, lastName) by {
        if HasName(s, firstName, lastName) {
          var i :| 0 <= i < |s| && SameName(s[i], firstName, lastName);
          assert SameName(s[1..][i - 1], firstName, lastName);
        }
      }
      r
  }

  // ----- properties of the operations -----

  /** Searching by name finds a record exactly when one with that name exists. */
  lemma ByNameNonEmptyIffHasName(s: seq<Customer>, firstName: string, lastName: string)
    ensures ByName(s, firstName, lastName) != [] <==> HasName(s, firstName, lastName)
  {
    var p := c => SameName(c, firstName, lastName);
    if HasName(s, firstName, lastName) {
      var i :| 0 <= i < |s| && SameName(s[i], firstName, lastName);
      FilterMember(s, p, s[i]);
    } else {
      FilterNone(s, p);
    }
  }

  /** The single-record search returns the head of the name search, or nothing when it is empty. */
  lemma {:induction false} FirstByNameIsHeadOfByName(s: seq<Customer>, firstName: string, lastName: string)
    ensures FirstByName(s, firstName, lastName) ==
      (var m := ByName(s, firstName, lastName); if m == [] then None else Some(m[0]))
  {
    if s != [] {
      FirstByNameIsHeadOfByName(s[1..], firstName, lastName);
    }
  }

  /** A successful add makes its record the one the single-record search finds. */
  lemma AddThenFind(s: seq<Customer>, firstName: string, lastName: string, birthday: Time)
    requires !AllSpace(firstName) && !AllSpace(lastName) && !HasName(s, firstName, lastName)
    ensures var t := Added(s, firstName, lastName, birthday).customers;
      HasName(t, firstName, lastName) &&
      FirstByName(t, firstName, lastName) == Some(Customer(firstName, lastName, birthday))
  {
    var t := Added(s, firstName, lastName, birthday).customers;
    FirstByNameIsHeadOfByName(t, firstName, lastName);
    var p := c => SameName(c, firstName, lastName);
    assert t == s + [Customer(firstName, lastName, birthday)];
    FilterConcat(s, [Customer(firstName, lastName, birthday)], p);
    FilterNone(s, p);
  }

  /** A second add of a stored name pair is refused, even with another birthday. */
  lemma AddTwiceIsDuplicate(s: seq<Customer>, firstName: string, lastName: string, b1: Time, b2: Time)
    requires !AllSpace(firstName) && !AllSpace(lastName) && !HasName(s, firstName, lastName)
    ensures Added(Added(s, firstName, lastName, b1).customers, firstName, lastName, b2).err
      == Some(DuplicateCustomer)
  {
    var t := Added(s, firstName, lastName, b1).customers;
    assert SameName(t[|s|], firstName, lastName);
  }

  /**
   * A name made only of white space (or empty) is refused whatever the other
   * name and whatever is stored, even when the pair is stored already.
   */
  lemma BlankNameIsMissing(s: seq<Customer>, firstName: string, lastName: string, birthday: Time)
    requires AllSpace(firstName) || AllSpace(lastName)
    ensures Added(s, firstName, lastName, birthday) == AddResult(Some(MissingName), s)
  {
  }

  /** A record survives a removal exactly when it was stored and does not match the target. */
  lemma RemovedMember(s: seq<Customer>, firstName: string, lastName: string, birthday: Time, c: Customer)
    ensures c in Removed(s, firstName, lastName, birthday) <==>
      c in s && !Matches(c, firstName, lastName, birthday)
  {
    FilterMember(s, c => !Matches(c, firstName, lastName, birthday), c);
  }

  /** A same-name record with another birthday survives the removal. */
  lemma RemoveKeepsOtherBirthdays(s: seq<Customer>, firstName: string, lastName: string, birthday: Time, c: Customer)
    requires c in s && SameName(c, firstName, lastName) && c.birthday != birthday
    ensures c in Removed(s, firstName, lastName, birthday)
  {
    RemovedMember(s, firstName, lastName, birthday, c);
  }

  /** Removing something that is not stored changes nothing. */
  lemma RemoveNothingIsNoop(s: seq<Customer>, firstName: string, lastName: string, birthday: Time)
    requires forall i :: 0 <= i < |s| ==> !Matches(s[i], firstName, lastName, birthday)
    ensures Removed(s, firstName, lastName, birthday) == s
  {
    FilterAll(s, c => !Matches(c, firstName, lastName, birthday));
  }

  /** Removal keeps the relative order of the survivors. */
  lemma RemovedKeepsOrder(a: seq<Customer>, b: seq<Customer>, firstName: string, lastName: string, birthday: Time)
    ensures Removed(a + b, firstName, lastName, birthday) ==
      Removed(a, firstName, lastName, birthday) + Removed(b, firstName, lastName, birthday)
  {
    FilterConcat(a, b, c => !Matches(c, firstName, lastName, birthday));
  }

  /** What a removal keeps and what it drops add up to the whole registry. */
  lemma {:induction false} RemovedCount(s: seq<Customer>, firstName: string, lastName: string, birthday: Time)
    ensures |Removed(s, firstName, lastName, birthday)| +
      |Filter(s, c => Matches(c, firstName, lastName, birthday))| == |s|
  {
    if s != [] {
      RemovedCount(s[1..], firstName, lastName, birthday);
    }
  }

  /** Removing the record just added restores the registry. */
  lemma AddThenRemove(s: seq<Customer>, firstName: string, lastName: string, birthday: Time)
    requires !AllSpace(firstName) && !AllSpace(lastName) && !HasName(s, firstName, lastName)
    ensures Removed(Added(s, firstName, lastName, birthday).customers, firstName, lastName, birthday) == s
  {
    var t := Added(s, firstName, lastName, birthday).customers;
    assert t == s + [Customer(firstName, lastName, birthday)];
    RemovedKeepsOrder(s, [Customer(firstName, lastName, birthday)], firstName, lastName, birthday);
    RemoveNothingIsNoop(s, firstName, lastName, birthday);
  }

  /**
   * The registration scenario on an empty registry: the first add of a name
   * succeeds, a second add of the same name is refused whatever the birthday,
   * and both searches find the first record, once.
   */
  lemma RegisterOnEmpty(firstName: string, lastName: string, b1: Time, b2: Time)
    requires !AllSpace(firstName) && !AllSpace(lastName)
    ensures var first := Added([], firstName, lastName, b1);
      && first.err == None
      && Added(first.customers, firstName, lastName, b2).err == Some(DuplicateCustomer)
      && FirstByName(first.customers, firstName, lastName) == Some(Customer(firstName, lastName, b1))
      && |ByName(first.customers, firstName, lastName)| == 1
  {
    var first := Added([], firstName, lastName, b1);
    AddThenFind([], firstName, lastName, b1);
    AddTwiceIsDuplicate([], firstName, lastName, b1, b2);
    FirstByNameIsHeadOfByName(first.customers, firstName, lastName);
    AddedWellFormed([], firstName, lastName, b1);
    ByNameAtMostOne(first.customers, firstName, lastName);
  }

  /** The scenario for Sabine Mustermann. */
  lemma SabineScenario(b1: Time, b2: Time)
    ensures var first := Added([], "Sabine", "Mustermann", b1);
      && first.err == None
      && Added(first.customers, "Sabine", "Mustermann", b2).err == Some(DuplicateCustomer)
      && FirstByName(first.customers, "Sabine", "Mustermann") == Some(Customer("Sabine", "Mustermann", b1))
      && |ByName(first.customers, "Sabine", "Mustermann")| == 1
  {
    assert !IsSpace("Sabine"[0]) && !IsSpace("Mustermann"[0]);
    RegisterOnEmpty("Sabine", "Mustermann", b1, b2);
  }

  /** Two adds of different, non-blank name pairs to an empty registry both succeed, in order. */
  lemma AddTwoOnEmpty(f1: string, l1: string, b1: Time, f2: string, l2: string, b2: Time)
    requires !AllSpace(f1) && !AllSpace(l1) && !AllSpace(f2) && !AllSpace(l2)
    requires f1 != f2 || l1 != l2
    ensures var first := Added([], f1, l1, b1);
      var second := Added(first.customers, f2, l2, b2);
      && first.err == None && second.err == None
      && second.customers == [Customer(f1, l1, b1), Customer(f2, l2, b2)]
  {
    var first := Added([], f1, l1, b1);
    assert first.customers == [Customer(f1, l1, b1)];
    assert !SameName(first.customers[0], f2, l2);
  }

  /**
   * Names that differ only in letter case are both accepted, although the two
   * records then share one e-mail address.
   */
  lemma CaseVariantsBothAccepted(b: Time)
    ensures var first := Added([], "Sabine", "Mustermann", b);
      var second := Added(first.customers, "sabine", "Mustermann", b);
      var c, d := Customer("Sabine", "Mustermann", b), Customer("sabine", "Mustermann", b);
      && first.err == None && second.err == None && second.customers == [c, d]
      && !SameName(c, d.firstName, d.lastName) && Email(c) == Email(d)
  {
    assert !IsSpace("Sabine"[0]) && !IsSpace("sabine"[0]) && !IsSpace("Mustermann"[0]);
    assert "Sabine"[0] != "sabine"[0];
    AddTwoOnEmpty("Sabine", "Mustermann", b, "sabine", "Mustermann", b);
    CaseVariantsShareEmail(b);
  }

  // ----- the invariant the registry keeps -----

  /** Every stored name is non-blank and no two records share a name pair. */
  predicate WellFormed(s: seq<Customer>)
  {
    && (forall i :: 0 <= i < |s| ==> !AllSpace(s[i].firstName) && !AllSpace(s[i].lastName))
    && (forall i, j :: 0 <= i < j < |s| ==> !SameName(s[i], s[j].firstName, s[j].lastName))
  }

  lemma AddedWellFormed(s: seq<Customer>, firstName: string, lastName: string, birthday: Time)
    requires WellFormed(s)
    ensures WellFormed(Added(s, firstName, lastName, birthday).customers)
  {
    var r := Added(s, firstName, lastName, birthday);
    if r.err.None? {
      var t := r.customers;
      assert t == s + [Customer(firstName, lastName, birthday)];
      assert !HasName(s, firstName, lastName);
      forall i, j | 0 <= i < j < |t| ensures !SameName(t[i], t[j].firstName, t[j].lastName) {
        if j == |s| {
          assert !SameName(s[i], firstName, lastName);
        }
      }
    }
  }

  lemma {:induction false} RemovedWellFormed(s: seq<Customer>, firstName: string, lastName: string, birthday: Time)
    requires WellFormed(s)
    ensures WellFormed(Removed(s, firstName, lastName, birthday))
  {
    if s != [] {
      var p := c => !Matches(c, firstName, lastName, birthday);
      var rest := Removed(s[1..], firstName, lastName, birthday);
      RemovedWellFormed(s[1..], firstName, lastName, birthday);
      var head := if p(s[0]) then [s[0]] else [];
      assert Removed(s, firstName, lastName, birthday) == head + rest;
      forall j | 0 <= j < |rest| ensures !SameName(s[0], rest[j].firstName, rest[j].lastName) {
        FilterMember(s[1..], p, rest[j]);
        var k :| 0 <= k < |s[1..]| && s[1..][k] == rest[j];
        assert s[k + 1] == rest[j];
      }
    }
  }

  /** Under the invariant, searching by name never finds more than one record. */
  lemma {:induction false} ByNameAtMostOne(s: seq<Customer>, firstName: string, lastName: string)
    requires WellFormed(s)
    ensures |ByName(s, firstName, lastName)| <= 1
  {
    if s != [] {
      var p := c => SameName(c, firstName, lastName);
      if p(s[0]) {
        forall i | 0 <= i < |s[1..]| ensures !p(s[1..][i]) {
          assert s[1..][i] == s[i + 1];
        }
        FilterNone(s[1..], p);
      } else {
        assert WellFormed(s[1..]);
        ByNameAtMostOne(s[1..], firstName, lastName);
      }
    }
  }

  // ----- reachable states -----

  /** A state-changing call on the registry. */
  datatype Op =
    | Add(firstName: string, lastName: string, birthday: Time)
    | Remove(firstName: string, lastName: string, birthday: Time)

  function Step(s: seq<Customer>, op: Op): seq<Customer>
  {
    match op
    case Add(f, l, b) => Added(s, f, l, b).customers
    case Remove(f, l, b) => Removed(s, f, l, b)
  }

  /** The records held after running ops, in order, on a freshly created registry. */
  function Replay(ops: seq<Op>): seq<Customer>
  {
    if ops == [] then [] else Step(Replay(ops[..|ops| - 1]), ops[|ops| - 1])
  }

  /** Every state reachable from a new registry keeps the invariant. */
  lemma {:induction false} ReplayWellFormed(ops: seq<Op>)
    ensures WellFormed(Replay(ops))
  {
    if ops != [] {
      var s := Replay(ops[..|ops| - 1]);
      ReplayWellFormed(ops[..|ops| - 1]);
      match ops[|ops| - 1]
      case Add(f, l, b) => AddedWellFormed(s, f, l, b);
      case Remove(f, l, b) => RemovedWellFormed(s, f, l, b);
    }
  }

  /** Hence, whatever adds and removes were made, a name search finds at most one record. */
  lemma ReachableByNameAtMostOne(ops: seq<Op>, firstName: string, lastName: string)
    ensures |ByName(Replay(ops), firstName, lastName)| <= 1
  {
    ReplayWellFormed(ops);
    ByNameAtMostOne(Replay(ops), firstName, lastName);
  }

  // ----- the registry object -----

  class CustomerService {
    var customers: seq<Customer>

    ghost predicate Valid()
      reads this
    {
      WellFormed(customers)
    }

    /** A new registry holds no record. */
    constructor ()
      ensures customers == [] && Valid()
    {
      customers := [];
    }

    method AddCustomer(firstName: string, lastName: string, birthday: Time) returns (err: Option<AddError>)
      modifies this
      ensures AddResult(err, customers) == Added(old(customers), firstName, lastName, birthday)
      ensures old(Valid()) ==> Valid()
    {
      if TrimSpace(firstName) == "" || TrimSpace(lastName) == "" {
        return Some(MissingName);
      }
      var known := CustomerExists(firstName, lastName);
      if known {
        return Some(DuplicateCustomer);
      }
      if Valid() {
        AddedWellFormed(customers, firstName, lastName, birthday);
      }
      customers := customers + [Customer(firstName, lastName, birthday)];
      return None;
    }

    method CustomerExists(firstName: string, lastName: string) returns (found: bool)
      ensures found <==> HasName(customers, firstName, lastName)
    {
      for i := 0 to |customers|
        invariant forall j :: 0 <= j < i ==> !SameName(customers[j], firstName, lastName)
      {
        if SameName(customers[i], firstName, lastName) {
          return true;
        }
      }
      return false;
    }

    method RemoveCustomer(firstName: string, lastName: string, birthday: Time)
      modifies this
      ensures customers == Removed(old(customers), firstName, lastName, birthday)
      ensures old(Valid()) ==> Valid()
    {
      ghost var original := customers;
      ghost var scanned := 0;
      var i := 0;
      while i < |customers|
        invariant 0 <= i <= |customers| && 0 <= scanned <= |original|
        invariant customers[..i] == Removed(original[..scanned], firstName, lastName, birthday)
        invariant customers[i..] == original[scanned..]
        decreases |customers| - i
      {
        var customer := customers[i];
        assert original[..scanned + 1] == original[..scanned] + [customer];
        RemovedKeepsOrder(original[..scanned], [customer], firstName, lastName, birthday);
        assert customer == original[scanned];
        if SameName(customer, firstName, lastName) && customer.birthday == birthday {
          ghost var before := customers;
          customers := customers[..i] + customers[i + 1..];
          assert customers[..i] == before[..i];
          assert customers[i..] == before[i + 1..] == original[scanned + 1..];
          i := i - 1;
        } else {
          assert customers[..i + 1] == customers[..i] + [customer];
          assert customers[i + 1..] == original[scanned + 1..];
        }
        i := i + 1;
        scanned := scanned + 1;
      }
      assert original[..scanned] == original;
      if old(Valid()) {
        RemovedWellFormed(original, firstName, lastName, birthday);
      }
    }

    method SearchCustomer(firstName: string, lastName: string) returns (r: Option<Customer>)
      ensures r == FirstByName(customers, firstName, lastName)
      ensures r.None? <==> !HasName(customers, firstName, lastName)
      ensures r.Some? ==> r.value in customers && SameName(r.value, firstName, lastName)
    {
      var matches := SearchWhere(c => SameName(c, firstName, lastName));
      // Makes the lambda above and the one inside ByName the same term for the verifier.
      FilterExtensional(customers, c => SameName(c, firstName, lastName), c => SameName(c, firstName, lastName));
      FirstByNameIsHeadOfByName(customers, firstName, lastName);
      if |matches| > 0 {
        return Some(matches[0]);
      }
      return None;
    }

    method SearchCustomers() returns (r: seq<Customer>)
      ensures r == customers
    {
      r := SearchWhere(c => true);
      FilterAll(customers, c => true);
    }

    method SearchCustomersByName(firstName: string, lastName: string) returns (r: seq<Customer>)
      ensures r == ByName(customers, firstName, lastName)
      ensures forall i :: 0 <= i < |r| ==> r[i] in customers && SameName(r[i], firstName, lastName)
      ensures Valid() ==> |r| <= 1
    {
      r := SearchWhere(c => SameName(c, firstName, lastName));
      // Makes the lambda above and the one inside ByName the same term for the verifier.
      FilterExtensional(customers, c => SameName(c, firstName, lastName), c => SameName(c, firstName, lastName));
      if Valid() {
        ByNameAtMostOne(customers, firstName, lastName);
      }
    }

    /** The private helper behind all three searches. */
    method SearchWhere(accept: Customer -> bool) returns (result: seq<Customer>)
      ensures result == Filter(customers, accept)
    {
      result := [];
      for i := 0 to |customers|
        invariant result == Filter(customers[..i], accept)
      {
        assert customers[..i + 1] == customers[..i] + [customers[i]];
        FilterConcat(customers[..i], [customers[i]], accept);
        if accept(customers[i]) {
          result := result + [customers[i]];
        }
      }
      assert customers[..|customers|] == customers;
    }
  }
}
