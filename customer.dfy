/**
 * The customer record and its two derived strings. Identity is the exact,
 * case-sensitive pair of first and last name; the derived strings lower-case
 * the first name (and, for the e-mail address, the last name), so two records
 * that differ only in letter case are distinct customers with one address.
 */
module Customers {
  import opened Text

  /** A point in time; the registry only ever compares two of them for equality. */
  type Time(==, 00)

  /** A registered customer; the constructor Customer(...) is also NewCustomer. */
  datatype Customer = Customer(firstName: string, lastName: string, birthday: Time)

  const MailDomain: string := "@mybank.com"

  /** The display name: first name in lower case, a blank, the last name with its case kept. */
  function FullName(c: Customer): (r: string)
    ensures |r| == |c.firstName| + 1 + |c.lastName|
    ensures r[..|c.firstName|] == Lower(c.firstName)
    ensures !HasUpper(r[..|c.firstName|])
    ensures r[|c.firstName|] == ' '
    ensures r[|c.firstName| + 1..] == c.lastName
  {
    Lower(c.firstName) + " " + c.lastName
  }

  /** The e-mail address: both names in lower case, joined by a dot, at the bank's domain. */
  function Email(c: Customer): (r: string)
    ensures |r| == |c.firstName| + 1 + |c.lastName| + |MailDomain|
    ensures !HasUpper(r)
    ensures r[..|c.firstName|] == Lower(c.firstName)
    ensures r[|c.firstName|] == '.'
    ensures r[|c.firstName| + 1..|c.firstName| + 1 + |c.lastName|] == Lower(c.lastName)
    ensures r[|r| - |MailDomain|..] == MailDomain
  {
    var r := Lower(c.firstName) + "." + Lower(c.lastName) + MailDomain;
    assert forall i :: 0 <= i < |r| ==> !('A' <= r[i] <= 'Z') by {
      forall i | 0 <= i < |r| ensures !('A' <= r[i] <= 'Z') {
        if i < |c.firstName| {
          assert r[i] == Lower(c.firstName)[i];
        } else if |c.firstName| < i < |c.firstName| + 1 + |c.lastName| {
          assert r[i] == Lower(c.lastName)[i - |c.firstName| - 1];
        }
      }
    }
    r
  }

  /**
   * The identity test of the registry: exact, case-sensitive equality of both
   * names. The birthday plays no part: a record has the name pair exactly when
   * it is that pair's record with its own birthday.
   */
  predicate SameName(c: Customer, firstName: string, lastName: string)
    ensures SameName(c, firstName, lastName) <==> c == Customer(firstName, lastName, c.birthday)
  {
    c.firstName == firstName && c.lastName == lastName
  }

  /** The e-mail address depends only on the lower-cased names. */
  lemma EmailIgnoresCase(c: Customer, d: Customer)
    requires Lower(c.firstName) == Lower(d.firstName) && Lower(c.lastName) == Lower(d.lastName)
    ensures Email(c) == Email(d)
  {
  }

  /** The worked example: Sabine Mustermann's e-mail address. */
  lemma SabineMustermannEmail(b: Time)
    ensures Email(Customer("Sabine", "Mustermann", b)) == "sabine.mustermann@mybank.com"
  {
    LowerExample();
    EmailOfLowered(Customer("Sabine", "Mustermann", b), "sabine", "mustermann");
    SabineAddress();
  }

  lemma EmailOfLowered(c: Customer, first: string, last: string)
    requires Lower(c.firstName) == first && Lower(c.lastName) == last
    ensures Email(c) == first + "." + last + MailDomain
  {
  }

  lemma SabineAddress()
    ensures "sabine" + "." + "mustermann" + MailDomain == "sabine.mustermann@mybank.com"
  {
    var r := "sabine" + "." + "mustermann" + MailDomain;
    assert forall i | 0 <= i < |r| :: r[i] == "sabine.mustermann@mybank.com"[i];
  }

  /** The worked example: Sabine Mustermann's display name keeps the capital M. */
  lemma SabineMustermannFullName(b: Time)
    ensures FullName(Customer("Sabine", "Mustermann", b)) == "sabine Mustermann"
  {
    LowerExample();
    var r := FullName(Customer("Sabine", "Mustermann", b));
    assert r == "sabine" + " " + "Mustermann";
    assert forall i | 0 <= i < |r| :: r[i] == "sabine Mustermann"[i];
  }

  /**
   * Two records whose first names differ only in case are different customers
   * to the identity test, yet they share an e-mail address.
   */
  lemma CaseVariantsShareEmail(b: Time)
    ensures var c, d := Customer("Sabine", "Mustermann", b), Customer("sabine", "Mustermann", b);
      !SameName(c, d.firstName, d.lastName) && Email(c) == Email(d)
  {
  }

  /**
   * The display name keeps the case of the last name where the e-mail address
   * does not: two records with one first name and last names that differ only
   * in case have different display names but the same address.
   */
  lemma FullNameKeepsLastNameCase(c: Customer, d: Customer)
    requires c.firstName == d.firstName && c.lastName != d.lastName
    requires Lower(c.lastName) == Lower(d.lastName)
    ensures FullName(c) != FullName(d) && Email(c) == Email(d)
  {
    assert FullName(c)[|c.firstName| + 1..] != FullName(d)[|d.firstName| + 1..];
  }

  /** The worked example: "Mustermann" and "MUSTERMANN" after "Sabine". */
  lemma SabineLastNameCase(b: Time)
    ensures var c, d := Customer("Sabine", "Mustermann", b), Customer("Sabine", "MUSTERMANN", b);
      FullName(c) != FullName(d) && Email(c) == Email(d)
  {
    LowerExample();
    assert "Mustermann"[1] != "MUSTERMANN"[1];
    FullNameKeepsLastNameCase(Customer("Sabine", "Mustermann", b), Customer("Sabine", "MUSTERMANN", b));
  }

  lemma LowerExample()
    ensures Lower("Sabine") == "sabine"
    ensures Lower("Mustermann") == "mustermann" == Lower("MUSTERMANN")
  {
    assert forall i | 0 <= i < 6 :: Lower("Sabine")[i] == "sabine"[i];
    assert forall i | 0 <= i < 10 :: Lower("Mustermann")[i] == "mustermann"[i];
    assert forall i | 0 <= i < 10 :: Lower("MUSTERMANN")[i] == "mustermann"[i];
  }
}
