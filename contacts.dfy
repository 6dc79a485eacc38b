/**
 * Resolution of a handle identifier (phone number or e-mail address) to a
 * display name (Services/ContactResolver.swift): lookup tables built from
 * the address book one contact at a time, a phone-then-email lookup, a
 * `+1-AAA-EEE-NNNN` fallback format, and a per-identifier cache.
 */
module Contacts {
  import opened Wrappers
  import opened Strings

  /** An address-book record, reduced to the fields the resolver reads. */
  datatype Contact = Contact(
    givenName: string,
    familyName: string,
    nickname: string,
    phoneNumbers: seq<string>,
    emailAddresses: seq<string>)

  /**
   * `contactDisplayName`: the nickname when there is one, else given and
   * family name joined by a space and trimmed; a contact left with an empty
   * name has none.
   */
  function ContactDisplayName(c: Contact): (r: Option<string>)
    ensures r.Some? ==> r.value != []
    ensures c.nickname != [] ==> r == Some(c.nickname)
  {
    if c.nickname != [] then Some(c.nickname)
    else
      var name := Trim(c.givenName + " " + c.familyName);
      if name == [] then None else Some(name)
  }

  /** A contact without a nickname has no name exactly when both its name parts are blank. */
  lemma NamelessIffBlank(c: Contact)
    requires c.nickname == []
    ensures ContactDisplayName(c).None? <==> AllSpace(c.givenName) && AllSpace(c.familyName)
  {
    var full := c.givenName + " " + c.familyName;
    TrimEmpty(full);
    if AllSpace(full) {
      assert forall i :: 0 <= i < |c.givenName| ==> c.givenName[i] == full[i];
      assert forall i :: 0 <= i < |c.familyName| ==> c.familyName[i] == full[|c.givenName| + 1 + i];
    }
  }

  /** The last ten characters of a string of more than ten digits. */
  function LastTen(digits: string): string
    requires |digits| > 10
  {
    digits[|digits| - 10..]
  }

  /**
   * The keys one phone number is stored under: its digits when there are at
   * least seven, and also their last ten when there are more than ten.
   */
  function PhoneKeysOf(phone: string): set<string>
  {
    var digits := Digits(phone);
    if |digits| >= 7 then
      {digits} + (if |digits| > 10 then {LastTen(digits)} else {})
    else
      {}
  }

  /** Every phone key is a string of seven or more digits taken from the number. */
  lemma PhoneKeysOfMembers(phone: string, k: string)
    ensures var d := Digits(phone);
            k in PhoneKeysOf(phone) <==> |d| >= 7 && (k == d || (|d| > 10 && k == LastTen(d)))
    ensures k in PhoneKeysOf(phone) ==> AllDigits(k) && |k| >= 7
  {
  }

  /** The keys of all of a contact's phone numbers. */
  function PhoneKeys(phones: seq<string>): set<string>
  {
    if phones == [] then {}
    else PhoneKeys(phones[..|phones| - 1]) + PhoneKeysOf(phones[|phones| - 1])
  }

  /** A key belongs to a contact's phone keys exactly when it is a key of one of its numbers. */
  lemma {:induction false} PhoneKeysMembers(phones: seq<string>, k: string)
    ensures k in PhoneKeys(phones) <==> exists i :: 0 <= i < |phones| && k in PhoneKeysOf(phones[i])
  {
    if phones != [] {
      var n := |phones| - 1;
      var front := phones[..n];
      PhoneKeysMembers(front, k);
      assert PhoneKeys(phones) == PhoneKeys(front) + PhoneKeysOf(phones[n]);
      if k in PhoneKeys(front) {
        var i :| 0 <= i < n && k in PhoneKeysOf(front[i]);
        assert front[i] == phones[i];
      } else if k !in PhoneKeysOf(phones[n]) {
        forall i | 0 <= i < |phones|
          ensures k !in PhoneKeysOf(phones[i])
        {
          if i < n {
            assert front[i] == phones[i];
          }
        }
      }
    }
  }

  lemma PhoneKeysStep(phones: seq<string>, i: nat)
    requires i < |phones|
    ensures PhoneKeys(phones[..i + 1]) == PhoneKeys(phones[..i]) + PhoneKeysOf(phones[i])
  {
    assert phones[..i + 1][..i] == phones[..i];
  }

  /** The keys of all of a contact's e-mail addresses: each lowercased. */
  function EmailKeys(emails: seq<string>): set<string>
  {
    if emails == [] then {}
    else EmailKeys(emails[..|emails| - 1]) + {Lower(emails[|emails| - 1])}
  }

  /** A key belongs to a contact's e-mail keys exactly when it is one of its addresses lowercased. */
  lemma {:induction false} EmailKeysMembers(emails: seq<string>, k: string)
    ensures k in EmailKeys(emails) <==> exists i :: 0 <= i < |emails| && k == Lower(emails[i])
  {
    if emails != [] {
      var n := |emails| - 1;
      EmailKeysMembers(emails[..n], k);
      if k in EmailKeys(emails[..n]) {
        var i :| 0 <= i < n && k == Lower(emails[..n][i]);
        assert emails[..n][i] == emails[i];
      }
      if exists i :: 0 <= i < |emails| && k == Lower(emails[i]) {
        var i :| 0 <= i < |emails| && k == Lower(emails[i]);
        if i < n {
          assert emails[..n][i] == emails[i];
        }
      }
    }
  }

  /** The two lookup tables: normalized phone digits and lowercased e-mail to name. */
  datatype Lookups = Lookups(phones: map<string, string>, emails: map<string, string>)

  /**
   * The tables after one contact is indexed: every key of a named contact
   * now maps to its name, overwriting what was there; a nameless contact
   * changes nothing.
   */
  function Index(t: Lookups, c: Contact): Lookups
  {
    match ContactDisplayName(c)
    case None => t
    case Some(name) =>
      Lookups(WithKeys(t.phones, PhoneKeys(c.phoneNumbers), name),
              WithKeys(t.emails, EmailKeys(c.emailAddresses), name))
  }

  /** `m` with every key in `keys` (re)assigned to `name`. */
  function WithKeys(m: map<string, string>, keys: set<string>, name: string): map<string, string>
  {
    m + map k | k in keys :: name
  }

  lemma WithKeysUnion(m: map<string, string>, a: set<string>, b: set<string>, name: string)
    ensures WithKeys(WithKeys(m, a, name), b, name) == WithKeys(m, a + b, name)
  {
  }

  lemma WithKeysOne(m: map<string, string>, x: string, name: string)
    ensures m[x := name] == WithKeys(m, {x}, name)
  {
  }

  /** The assignments made for one phone number store exactly its keys. */
  lemma StoringPhoneKeys(m: map<string, string>, phone: string, name: string)
    ensures var d := Digits(phone);
            WithKeys(m, PhoneKeysOf(phone), name) ==
              if |d| >= 7 then (if |d| > 10 then m[d := name][LastTen(d) := name] else m[d := name]) else m
  {
    var d := Digits(phone);
    if |d| >= 7 {
      WithKeysOne(m, d, name);
      if |d| > 10 {
        WithKeysOne(m[d := name], LastTen(d), name);
        WithKeysUnion(m, {d}, {LastTen(d)}, name);
        assert PhoneKeysOf(phone) == {d} + {LastTen(d)};
      } else {
        assert PhoneKeysOf(phone) == {d};
      }
    } else {
      assert WithKeys(m, {}, name) == m;
    }
  }

  /** The tables after the contacts are indexed in order. */
  function IndexAll(t: Lookups, cs: seq<Contact>): Lookups
  {
    if cs == [] then t else Index(IndexAll(t, cs[..|cs| - 1]), cs[|cs| - 1])
  }

  /** A stored phone key: the full digits first, then the last ten. */
  function PhoneMatch(t: Lookups, digits: string): Option<string>
  {
    if digits in t.phones then Some(t.phones[digits])
    else if |digits| > 10 && LastTen(digits) in t.phones then Some(t.phones[LastTen(digits)])
    else None
  }

  /**
   * `lookupName`: an identifier with a digit and no `@` is a phone number,
   * looked up by its digits and then by their last ten; one with an `@` is
   * an e-mail address, looked up lowercased.
   */
  function LookupName(t: Lookups, identifier: string): (r: Option<string>)
    ensures r.Some? ==> r.value in t.phones.Values || r.value in t.emails.Values
    ensures HasDigit(identifier) && '@' !in identifier && Digits(identifier) in t.phones ==>
              r == Some(t.phones[Digits(identifier)])
    ensures r.None? && HasDigit(identifier) && '@' !in identifier ==> Digits(identifier) !in t.phones
    ensures r.None? && '@' in identifier ==> Lower(identifier) !in t.emails
  {
    var phone := if HasDigit(identifier) && '@' !in identifier then PhoneMatch(t, Digits(identifier)) else None;
    if phone.Some? then phone
    else if '@' in identifier && Lower(identifier) in t.emails then Some(t.emails[Lower(identifier)])
    else None
  }

  /**
   * `formatIdentifier`: an identifier that starts with `+1` and has exactly
   * eleven digits becomes `+1-AAA-EEE-NNNN`; every other one is kept.
   */
  function FormatIdentifier(id: string): (r: string)
    ensures r != id ==> HasPrefix(id, "+1") && |Digits(id)| == 11
    ensures HasPrefix(id, "+1") && |Digits(id)| == 11 ==>
              |r| == 15 && HasPrefix(r, "+1-") && r[6] == '-' && r[10] == '-'
  {
    var digits := Digits(id);
    if HasPrefix(id, "+1") && |digits| == 11 then
      "+1-" + digits[1..4] + "-" + digits[4..7] + "-" + digits[7..]
    else
      id
  }

  /** The name of an identifier without a cache: the lookup, else the formatted identifier. */
  function Resolve(t: Lookups, identifier: string): string
  {
    LookupName(t, identifier).GetOr(FormatIdentifier(identifier))
  }

  /** The digits of a formatted number are its country code and its three groups. */
  lemma DigitsOfGrouped(a: string, b: string, c: string)
    requires AllDigits(a) && AllDigits(b) && AllDigits(c)
    ensures Digits("+1-" + a + "-" + b + "-" + c) == "1" + a + b + c
  {
    DigitsAfterCountryCode(a);
    DigitsAfterDash("+1-" + a, b);
    DigitsAfterDash("+1-" + a + "-" + b, c);
  }

  /** The `+1-` prefix contributes the country code's one digit. */
  lemma DigitsAfterCountryCode(a: string)
    requires AllDigits(a)
    ensures Digits("+1-" + a) == "1" + a
  {
    assert Digits("+1-") == "1";
    DigitsOfDigits(a);
    DigitsAppend("+1-", a);
  }

  /** A dash adds no digits. */
  lemma DigitsAfterDash(p: string, a: string)
    requires AllDigits(a)
    ensures Digits(p + "-" + a) == Digits(p) + a
  {
    var dash: string := ['-'];
    assert Digits(dash) == [];
    DigitsOfDigits(a);
    DigitsAppend(p, dash);
    DigitsAppend(p + dash, a);
  }

  /** Formatting keeps exactly the digits of the identifier. */
  lemma FormatKeepsDigits(id: string)
    ensures Digits(FormatIdentifier(id)) == Digits(id)
  {
    var d := Digits(id);
    if HasPrefix(id, "+1") && |d| == 11 {
      assert d[0] == '1' by {
        assert id == "+1" + id[2..];
        DigitsAppend("+1", id[2..]);
        assert Digits("+1") == "1";
      }
      DigitsOfGrouped(d[1..4], d[4..7], d[7..]);
      assert d == "1" + d[1..4] + d[4..7] + d[7..];
    }
  }

  /** A formatted identifier is left as it is when formatted again. */
  lemma FormatIdempotent(id: string)
    ensures FormatIdentifier(FormatIdentifier(id)) == FormatIdentifier(id)
  {
    var r := FormatIdentifier(id);
    if r != id {
      FormatKeepsDigits(id);
      assert HasPrefix(r, "+1");
    }
  }

  /**
   * A North American number written `+1` and ten digits is shown as
   * `+1-AAA-EEE-NNNN`: area code, exchange, line.
   */
  lemma FormatNorthAmerican(d: string)
    requires AllDigits(d) && |d| == 10
    ensures FormatIdentifier("+1" + d) == "+1-" + d[..3] + "-" + d[3..6] + "-" + d[6..]
  {
    var id, digits := "+1" + d, "1" + d;
    assert Digits(id) == digits by {
      assert Digits("+1") == "1";
      DigitsOfDigits(d);
      DigitsAppend("+1", d);
    }
    assert HasPrefix(id, "+1") by {
      assert id[..2] == "+1";
    }
    assert digits[1..4] == d[..3] && digits[4..7] == d[3..6] && digits[7..] == d[6..];
  }

  /**
   * A phone identifier whose full digits are not stored falls back to its
   * last ten digits.
   */
  lemma LookupFallsBackToLastTen(t: Lookups, id: string)
    requires HasDigit(id) && '@' !in id
    requires Digits(id) !in t.phones && |Digits(id)| > 10
    requires LastTen(Digits(id)) in t.phones
    ensures LookupName(t, id) == Some(t.phones[LastTen(Digits(id))])
  {
  }

  /** An identifier with an `@` is only ever looked up, lowercased, among the e-mail keys. */
  lemma EmailLookupOnly(t: Lookups, id: string)
    requires '@' in id
    ensures LookupName(t, id) == if Lower(id) in t.emails then Some(t.emails[Lower(id)]) else None
  {
  }

  /** Indexing a named contact makes each of its phone numbers (of seven digits or more) resolve to it. */
  lemma IndexedPhoneResolves(t: Lookups, c: Contact, i: nat, id: string)
    requires ContactDisplayName(c).Some? && i < |c.phoneNumbers|
    requires |Digits(c.phoneNumbers[i])| >= 7
    requires Digits(id) == Digits(c.phoneNumbers[i]) && '@' !in id
    ensures LookupName(Index(t, c), id) == ContactDisplayName(c)
  {
    assert Digits(id) in PhoneKeysOf(c.phoneNumbers[i]);
    PhoneKeysMembers(c.phoneNumbers, Digits(id));
    HasDigitIffDigits(id);
  }

  /**
   * A contact stored under a ten-digit local number is found from an
   * identifier that adds a country code, unless its full digits belong to
   * another entry.
   */
  lemma CountryCodeResolves(t: Lookups, c: Contact, i: nat, id: string)
    requires ContactDisplayName(c).Some? && i < |c.phoneNumbers|
    requires |Digits(c.phoneNumbers[i])| == 10
    requires '@' !in id && |Digits(id)| > 10 && LastTen(Digits(id)) == Digits(c.phoneNumbers[i])
    requires Digits(id) !in Index(t, c).phones
    ensures LookupName(Index(t, c), id) == ContactDisplayName(c)
  {
    assert Digits(c.phoneNumbers[i]) in PhoneKeysOf(c.phoneNumbers[i]);
    PhoneKeysMembers(c.phoneNumbers, Digits(c.phoneNumbers[i]));
    HasDigitIffDigits(id);
  }

  /** Indexing a named contact makes each of its e-mail addresses resolve to it, in any letter case. */
  lemma IndexedEmailResolves(t: Lookups, c: Contact, i: nat, id: string)
    requires ContactDisplayName(c).Some? && i < |c.emailAddresses|
    requires '@' in id && Lower(id) == Lower(c.emailAddresses[i])
    ensures LookupName(Index(t, c), id) == ContactDisplayName(c)
  {
    EmailKeysMembers(c.emailAddresses, Lower(id));
  }

  /** A named contact that has phone key `k`. */
  predicate HasPhoneKey(c: Contact, k: string) {
    ContactDisplayName(c).Some? && k in PhoneKeys(c.phoneNumbers)
  }

  /** Indexing a contact named `name` that has phone key `k` stores `name` under `k`. */
  lemma IndexClaimsPhoneKey(t: Lookups, c: Contact, k: string, name: string)
    requires ContactDisplayName(c) == Some(name) && k in PhoneKeys(c.phoneNumbers)
    ensures k in Index(t, c).phones && Index(t, c).phones[k] == name
  {
  }

  /** Indexing a contact that does not have phone key `k` leaves the entry for `k` alone. */
  lemma IndexKeepsPhoneKey(t: Lookups, c: Contact, k: string)
    requires !HasPhoneKey(c, k)
    ensures k in Index(t, c).phones <==> k in t.phones
    ensures k in t.phones ==> Index(t, c).phones[k] == t.phones[k]
  {
  }

  /**
   * Later contacts overwrite earlier ones: after indexing, a phone key holds
   * the name of the last named contact that has it.
   */
  lemma {:induction false} LastContactWins(t: Lookups, cs: seq<Contact>, j: nat, k: string, name: string)
    requires j < |cs| && ContactDisplayName(cs[j]) == Some(name) && k in PhoneKeys(cs[j].phoneNumbers)
    requires forall l :: j < l < |cs| ==> !HasPhoneKey(cs[l], k)
    ensures k in IndexAll(t, cs).phones && IndexAll(t, cs).phones[k] == name
  {
    var n := |cs| - 1;
    var prefix := cs[..n];
    var before := IndexAll(t, prefix);
    assert IndexAll(t, cs) == Index(before, cs[n]);
    if j < n {
      assert prefix[j] == cs[j];
      assert forall l :: j < l < n ==> !HasPhoneKey(prefix[l], k) by {
        forall l | j < l < n ensures !HasPhoneKey(prefix[l], k) {
          assert prefix[l] == cs[l];
        }
      }
      LastContactWins(t, prefix, j, k, name);
      IndexKeepsPhoneKey(before, cs[n], k);
    } else {
      IndexClaimsPhoneKey(before, cs[n], k, name);
    }
  }

  /** A phone key that no named contact has keeps its entry from before the build. */
  lemma {:induction false} UnclaimedKeyKept(t: Lookups, cs: seq<Contact>, k: string)
    requires forall l :: 0 <= l < |cs| ==> !HasPhoneKey(cs[l], k)
    ensures k in IndexAll(t, cs).phones <==> k in t.phones
    ensures k in t.phones ==> IndexAll(t, cs).phones[k] == t.phones[k]
  {
    if cs != [] {
      var n := |cs| - 1;
      assert IndexAll(t, cs) == Index(IndexAll(t, cs[..n]), cs[n]);
      IndexKeepsPhoneKey(IndexAll(t, cs[..n]), cs[n], k);
      assert forall l :: 0 <= l < n ==> cs[..n][l] == cs[l];
      UnclaimedKeyKept(t, cs[..n], k);
    }
  }

  /** A named contact that has e-mail key `k`. */
  predicate HasEmailKey(c: Contact, k: string) {
    ContactDisplayName(c).Some? && k in EmailKeys(c.emailAddresses)
  }

  /** Indexing a contact that does not have e-mail key `k` leaves the entry for `k` alone. */
  lemma IndexKeepsEmailKey(t: Lookups, c: Contact, k: string)
    requires !HasEmailKey(c, k)
    ensures k in Index(t, c).emails <==> k in t.emails
    ensures k in t.emails ==> Index(t, c).emails[k] == t.emails[k]
  {
  }

  /**
   * Later contacts overwrite earlier ones for e-mail too: after indexing,
   * the lowercased address holds the name of the last named contact that
   * has it.
   */
  lemma {:induction false} LastContactWinsEmail(t: Lookups, cs: seq<Contact>, j: nat, i: nat, name: string)
    requires j < |cs| && ContactDisplayName(cs[j]) == Some(name) && i < |cs[j].emailAddresses|
    requires forall l :: j < l < |cs| ==> !HasEmailKey(cs[l], Lower(cs[j].emailAddresses[i]))
    ensures var k := Lower(cs[j].emailAddresses[i]);
            k in IndexAll(t, cs).emails && IndexAll(t, cs).emails[k] == name
  {
    var k := Lower(cs[j].emailAddresses[i]);
    var n := |cs| - 1;
    var prefix := cs[..n];
    var before := IndexAll(t, prefix);
    assert IndexAll(t, cs) == Index(before, cs[n]);
    if j < n {
      assert prefix[j] == cs[j];
      assert forall l :: j < l < n ==> !HasEmailKey(prefix[l], k) by {
        forall l | j < l < n ensures !HasEmailKey(prefix[l], k) {
          assert prefix[l] == cs[l];
        }
      }
      LastContactWinsEmail(t, prefix, j, i, name);
      IndexKeepsEmailKey(before, cs[n], k);
    } else {
      EmailKeysMembers(cs[n].emailAddresses, k);
    }
  }

  /** An e-mail key that no named contact has keeps its entry from before the build. */
  lemma {:induction false} UnclaimedEmailKept(t: Lookups, cs: seq<Contact>, k: string)
    requires forall l :: 0 <= l < |cs| ==> !HasEmailKey(cs[l], k)
    ensures k in IndexAll(t, cs).emails <==> k in t.emails
    ensures k in t.emails ==> IndexAll(t, cs).emails[k] == t.emails[k]
  {
    if cs != [] {
      var n := |cs| - 1;
      assert IndexAll(t, cs) == Index(IndexAll(t, cs[..n]), cs[n]);
      IndexKeepsEmailKey(IndexAll(t, cs[..n]), cs[n], k);
      assert forall l :: 0 <= l < n ==> cs[..n][l] == cs[l];
      UnclaimedEmailKept(t, cs[..n], k);
    }
  }

  /**
   * After the build, an e-mail identifier resolves, whatever its case, to
   * the last named contact that lists the address.
   */
  lemma EmailResolvesToLastOwner(t: Lookups, cs: seq<Contact>, j: nat, i: nat, name: string, id: string)
    requires j < |cs| && ContactDisplayName(cs[j]) == Some(name) && i < |cs[j].emailAddresses|
    requires '@' in id && Lower(id) == Lower(cs[j].emailAddresses[i])
    requires forall l :: j < l < |cs| ==> !HasEmailKey(cs[l], Lower(id))
    ensures LookupName(IndexAll(t, cs), id) == Some(name)
  {
    LastContactWinsEmail(t, cs, j, i, name);
  }

  /** The resolver's whole naming state: its cache over its lookup tables. */
  datatype Naming = Naming(cache: map<string, string>, lookups: Lookups) {
    /** The name `displayName` gives `identifier` in this state. */
    function Name(identifier: string): string {
      if identifier in cache then cache[identifier] else Resolve(lookups, identifier)
    }

    /** Two states that give every identifier the same name. */
    ghost predicate Agrees(other: Naming) {
      forall id {:trigger other.Name(id)} :: Name(id) == other.Name(id)
    }
  }

  lemma AgreesTransitive(a: Naming, b: Naming, c: Naming)
    requires a.Agrees(b) && b.Agrees(c)
    ensures a.Agrees(c)
  {
  }

  class ContactResolver {
    var cache: map<string, string>
    var phoneLookup: map<string, string>
    var emailLookup: map<string, string>
    var didBuildLookup: bool

    constructor()
      ensures cache == map[] && phoneLookup == map[] && emailLookup == map[] && !didBuildLookup
    {
      cache := map[];
      phoneLookup := map[];
      emailLookup := map[];
      didBuildLookup := false;
    }

    function Tables(): Lookups
      reads this
    {
      Lookups(phoneLookup, emailLookup)
    }

    function Names(): Naming
      reads this
    {
      Naming(cache, Tables())
    }

    /**
     * `displayName(for:)`: a cached identifier gets its cached name and
     * nothing changes; otherwise the lookup-else-format name is computed and
     * cached under that identifier alone. Either way every identifier keeps
     * the name it had, so asking twice gives the same answer.
     */
    method DisplayName(identifier: string) returns (name: string)
      modifies this
      ensures name == old(Names()).Name(identifier)
      ensures identifier in old(cache) ==> cache == old(cache)
      ensures identifier !in old(cache) ==> cache == old(cache)[identifier := Resolve(old(Tables()), identifier)]
      ensures phoneLookup == old(phoneLookup) && emailLookup == old(emailLookup)
      ensures didBuildLookup == old(didBuildLookup)
      ensures Names().Agrees(old(Names()))
    {
      if identifier in cache {
        return cache[identifier];
      }
      var found := LookupName(Tables(), identifier);
      name := if found.Some? then found.value else FormatIdentifier(identifier);
      cache := cache[identifier := name];
    }

    /** The body `buildLookupTable` runs for each enumerated contact. */
    method AddContact(contact: Contact)
      modifies this
      ensures Tables() == Index(old(Tables()), contact)
      ensures cache == old(cache) && didBuildLookup == old(didBuildLookup)
    {
      var found := ContactDisplayName(contact);
      if found.None? {
        return;
      }
      IndexPhones(contact.phoneNumbers, found.value);
      IndexEmails(contact.emailAddresses, found.value);
    }

    /** Stores `name` under every key of every phone number, one number at a time. */
    method IndexPhones(phones: seq<string>, name: string)
      modifies this`phoneLookup
      ensures phoneLookup == WithKeys(old(phoneLookup), PhoneKeys(phones), name)
    {
      for i := 0 to |phones|
        invariant phoneLookup == WithKeys(old(phoneLookup), PhoneKeys(phones[..i]), name)
      {
        ghost var before := phoneLookup;
        var digits := Digits(phones[i]);
        if |digits| >= 7 {
          phoneLookup := phoneLookup[digits := name];
          if |digits| > 10 {
            var last10 := digits[|digits| - 10..];
            phoneLookup := phoneLookup[last10 := name];
          }
        }
        StoringPhoneKeys(before, phones[i], name);
        PhoneKeysStep(phones, i);
        WithKeysUnion(old(phoneLookup), PhoneKeys(phones[..i]), PhoneKeysOf(phones[i]), name);
      }
      assert phones[..|phones|] == phones;
    }

    /** Stores `name` under every e-mail address, lowercased. */
    method IndexEmails(emails: seq<string>, name: string)
      modifies this`emailLookup
      ensures emailLookup == WithKeys(old(emailLookup), EmailKeys(emails), name)
    {
      for i := 0 to |emails|
        invariant emailLookup == WithKeys(old(emailLookup), EmailKeys(emails[..i]), name)
      {
        assert emails[..i + 1][..i] == emails[..i];
        WithKeysOne(emailLookup, Lower(emails[i]), name);
        WithKeysUnion(old(emailLookup), EmailKeys(emails[..i]), {Lower(emails[i])}, name);
        emailLookup := emailLookup[Lower(emails[i]) := name];
      }
      assert emails[..|emails|] == emails;
    }

    /** The enumeration loop of `buildLookupTable`, over the contacts it is handed. */
    method BuildLookupTable(contacts: seq<Contact>)
      modifies this
      ensures Tables() == IndexAll(old(Tables()), contacts)
      ensures cache == old(cache) && didBuildLookup
    {
      for i := 0 to |contacts|
        invariant Tables() == IndexAll(old(Tables()), contacts[..i])
        invariant cache == old(cache)
      {
        assert contacts[..i + 1][..i] == contacts[..i];
        AddContact(contacts[i]);
      }
      assert contacts[..|contacts|] == contacts;
      didBuildLookup := true;
    }
  }
}
