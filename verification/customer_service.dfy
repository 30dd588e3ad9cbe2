/** The customer registry: customers keyed by their generated id, with the NIK (national
    identity number) and the email address each unique across the table.

    `CreateCustomer` checks both itself before saving; `UpdateCustomer` checks neither and
    relies on the table's unique columns, which the repository's `Save` models. Every
    successful operation appends the event it publishes to the registry's outbox; a refused
    update reports the event it had already sent. */
module CustomerService {
  import opened Wrappers

  datatype CustomerStatus = Active | Inactive | Blacklisted | PendingVerification

  /** The fields a client supplies, on creation and on update alike. Dates are day
      numbers and the income is in cents. */
  datatype CustomerRequest = CustomerRequest(
    nik: string,
    fullName: string,
    email: string,
    phoneNumber: string,
    dateOfBirth: int,
    address: string,
    monthlyIncome: int,
    occupation: string)

  datatype Customer = Customer(
    id: nat,
    nik: string,
    fullName: string,
    email: string,
    phoneNumber: string,
    dateOfBirth: int,
    address: string,
    monthlyIncome: int,
    occupation: string,
    status: CustomerStatus,
    isVerified: bool)

  datatype EventType = CustomerCreated | CustomerUpdated | CustomerVerified | CustomerBlacklisted

  datatype CustomerEvent = CustomerEvent(
    customerId: nat,
    nik: string,
    email: string,
    eventType: EventType,
    metadata: Option<string>)

  datatype Registry = Registry(customers: map<nat, Customer>, nextId: nat, events: seq<CustomerEvent>)

  datatype CustomerError =
    | DuplicateNik                // CustomerAlreadyExistsException on the NIK
    | DuplicateEmail              // CustomerAlreadyExistsException on the email
    | CustomerNotFound            // CustomerNotFoundException
    | NonUniqueResult             // a derived query matching more than one row
    | UniqueConstraintViolation   // the database refusing a duplicate NIK or email

  /** A refused update: the error, and the events already handed to the broker when it
      happened. The database rolls the transaction back; a sent message stays sent. */
  datatype UpdateRefusal = UpdateRefusal(error: CustomerError, sent: seq<CustomerEvent>)

  // ---------------------------------------------------------------------------------
  // Invariants

  /** Every customer is filed under its own id, below the identity counter. */
  predicate Valid(reg: Registry) {
    forall id :: id in reg.customers ==> id < reg.nextId && reg.customers[id].id == id
  }

  /** No two customers share a NIK or an email. */
  predicate Unique(reg: Registry) {
    forall i, j :: i in reg.customers && j in reg.customers && i != j ==>
      reg.customers[i].nik != reg.customers[j].nik && reg.customers[i].email != reg.customers[j].email
  }

  predicate NikTaken(reg: Registry, nik: string) {
    exists id :: id in reg.customers && reg.customers[id].nik == nik
  }

  predicate EmailTaken(reg: Registry, email: string) {
    exists id :: id in reg.customers && reg.customers[id].email == email
  }

  // ---------------------------------------------------------------------------------
  // Mapping and persistence

  /** `CustomerMapper.toEntity`: every supplied field is copied; a new customer awaits
      verification and is not verified. */
  function ToEntity(id: nat, req: CustomerRequest): (c: Customer)
    ensures c.id == id && c.status == PendingVerification && !c.isVerified
    ensures c.nik == req.nik && c.email == req.email && c.fullName == req.fullName
    ensures c.phoneNumber == req.phoneNumber && c.dateOfBirth == req.dateOfBirth
    ensures c.address == req.address && c.monthlyIncome == req.monthlyIncome && c.occupation == req.occupation
  {
    Customer(id, req.nik, req.fullName, req.email, req.phoneNumber, req.dateOfBirth,
             req.address, req.monthlyIncome, req.occupation, PendingVerification, false)
  }

  /** `CustomerMapper.updateEntityFromRequest`: the id, status and verification flag are
      kept and every other field is overwritten. */
  function UpdateEntity(c: Customer, req: CustomerRequest): (c': Customer)
    ensures c'.id == c.id && c'.status == c.status && c'.isVerified == c.isVerified
    ensures c' == ToEntity(c.id, req).(status := c.status, isVerified := c.isVerified)
  {
    c.(nik := req.nik, fullName := req.fullName, email := req.email, phoneNumber := req.phoneNumber,
       dateOfBirth := req.dateOfBirth, address := req.address, monthlyIncome := req.monthlyIncome,
       occupation := req.occupation)
  }

  /** Another row already holds the customer's NIK or email. */
  predicate Clashes(reg: Registry, c: Customer) {
    exists id :: id in reg.customers && id != c.id &&
      (reg.customers[id].nik == c.nik || reg.customers[id].email == c.email)
  }

  /** The repository's `save`: the row is inserted or replaced under its id unless the
      unique NIK or email column refuses it. */
  function Save(reg: Registry, c: Customer): (r: Result<Registry, CustomerError>)
    ensures r.Failure? <==> Clashes(reg, c)
    ensures r.Failure? ==> r.error == UniqueConstraintViolation
    ensures r.Success? ==> r.value == reg.(customers := reg.customers[c.id := c])
  {
    if Clashes(reg, c) then Failure(UniqueConstraintViolation)
    else Success(reg.(customers := reg.customers[c.id := c]))
  }

  /** A customer whose NIK and email nobody holds yet cannot clash. */
  lemma FreeKeysNeverClash(reg: Registry, c: Customer)
    requires !NikTaken(reg, c.nik) && !EmailTaken(reg, c.email)
    ensures !Clashes(reg, c)
  {
  }

  /** A save the unique columns accept keeps the registry free of duplicates. */
  lemma SaveKeepsUnique(reg: Registry, c: Customer)
    requires Unique(reg) && !Clashes(reg, c)
    ensures Unique(reg.(customers := reg.customers[c.id := c]))
  {
    var m := reg.customers[c.id := c];
    forall i, j | i in m && j in m && i != j
      ensures m[i].nik != m[j].nik && m[i].email != m[j].email
    {
      if i == c.id {
        assert j in reg.customers && j != c.id;
      } else if j == c.id {
        assert i in reg.customers && i != c.id;
      }
    }
  }

  /** The event `publishEvent` sends for a customer. */
  function Event(c: Customer, eventType: EventType): CustomerEvent {
    CustomerEvent(c.id, c.nik, c.email, eventType, None)
  }

  // ---------------------------------------------------------------------------------
  // Operations

  /** `createCustomer`: a taken NIK is refused first, then a taken email; otherwise the
      mapped customer is saved under the next id and CUSTOMER_CREATED is published. */
  function CreateCustomer(reg: Registry, req: CustomerRequest): (r: Result<Registry, CustomerError>)
    ensures NikTaken(reg, req.nik) ==> r == Failure(DuplicateNik)
    ensures !NikTaken(reg, req.nik) && EmailTaken(reg, req.email) ==> r == Failure(DuplicateEmail)
    ensures r.Success? <==> !NikTaken(reg, req.nik) && !EmailTaken(reg, req.email)
    ensures r.Success? ==>
      var c := ToEntity(reg.nextId, req);
      && r.value.customers == reg.customers[reg.nextId := c]
      && r.value.nextId == reg.nextId + 1
      && r.value.events == reg.events + [Event(c, CustomerCreated)]
  {
    if NikTaken(reg, req.nik) then Failure(DuplicateNik)
    else if EmailTaken(reg, req.email) then Failure(DuplicateEmail)
    else
      var c := ToEntity(reg.nextId, req);
      FreeKeysNeverClash(reg, c);
      var saved := Save(reg, c).value;
      Success(saved.(nextId := reg.nextId + 1, events := reg.events + [Event(c, CustomerCreated)]))
  }

  lemma CreateKeepsInvariants(reg: Registry, req: CustomerRequest)
    requires Valid(reg) && Unique(reg)
    ensures CreateCustomer(reg, req).Success? ==>
      Valid(CreateCustomer(reg, req).value) && Unique(CreateCustomer(reg, req).value)
  {
    if CreateCustomer(reg, req).Success? {
      var c := ToEntity(reg.nextId, req);
      FreeKeysNeverClash(reg, c);
      SaveKeepsUnique(reg, c);
    }
  }

  /** `getCustomerById`. */
  function GetCustomerById(reg: Registry, id: nat): (r: Result<Customer, CustomerError>)
    ensures r.Failure? <==> id !in reg.customers
    ensures r.Failure? ==> r.error == CustomerNotFound
    ensures r.Success? ==> r.value == reg.customers[id]
    ensures r.Success? && Valid(reg) ==> r.value.id == id
  {
    if id in reg.customers then Success(reg.customers[id]) else Failure(CustomerNotFound)
  }

  /** The ids of the customers holding a NIK. */
  function NikHolders(reg: Registry, nik: string): (ids: set<nat>)
    ensures forall id :: id in ids <==> id in reg.customers && reg.customers[id].nik == nik
  {
    set id | id in reg.customers && reg.customers[id].nik == nik
  }

  /** `getCustomerByNik`: the derived query `findByNik` finds no row, exactly one row, or
      (were the NIK ever duplicated) more than one, which the query refuses. */
  method GetCustomerByNik(reg: Registry, nik: string) returns (r: Result<Customer, CustomerError>)
    ensures r == Failure(CustomerNotFound) <==> !NikTaken(reg, nik)
    ensures r.Success? ==> r.value.nik == nik && r.value in reg.customers.Values
    ensures r.Success? ==> forall id :: id in reg.customers && reg.customers[id].nik == nik ==> reg.customers[id] == r.value
    ensures r == Failure(NonUniqueResult) ==> !Unique(reg)
    ensures r.Failure? ==> r.error == CustomerNotFound || r.error == NonUniqueResult
    ensures Unique(reg) && NikTaken(reg, nik) ==> r.Success?
  {
    var ids := NikHolders(reg, nik);
    if ids == {} {
      r := Failure(CustomerNotFound);
    } else {
      var id :| id in ids;
      if ids == {id} {
        r := Success(reg.customers[id]);
      } else {
        var other :| other in ids && other != id;
        r := Failure(NonUniqueResult);
      }
    }
  }

  /** `updateCustomer`: the loaded customer takes the request's fields and is saved back.
      The service re-checks neither the NIK nor the email, so a collision is refused only
      by the table's unique columns. Saving a loaded entity writes nothing until the
      transaction commits, and CUSTOMER_UPDATED is sent before that: a refused update has
      already announced itself. */
  function UpdateCustomer(reg: Registry, id: nat, req: CustomerRequest): (r: Result<Registry, UpdateRefusal>)
    ensures id !in reg.customers ==> r == Failure(UpdateRefusal(CustomerNotFound, []))
    ensures id in reg.customers ==>
      var c := UpdateEntity(reg.customers[id], req);
      && (r.Failure? <==> Clashes(reg, c))
      && (r.Failure? ==> r.error == UpdateRefusal(UniqueConstraintViolation, [Event(c, CustomerUpdated)]))
    ensures r.Success? && Valid(reg) ==>
      var c := UpdateEntity(reg.customers[id], req);
      && r.value.customers == reg.customers[id := c]
      && r.value.nextId == reg.nextId
      && r.value.events == reg.events + [Event(c, CustomerUpdated)]
  {
    if id !in reg.customers then Failure(UpdateRefusal(CustomerNotFound, []))
    else
      var c := UpdateEntity(reg.customers[id], req);
      var event := Event(c, CustomerUpdated);
      match Save(reg, c)
      case Failure(e) => Failure(UpdateRefusal(e, [event]))
      case Success(saved) => Success(saved.(events := reg.events + [event]))
  }

  lemma UpdateKeepsInvariants(reg: Registry, id: nat, req: CustomerRequest)
    requires Valid(reg) && Unique(reg)
    ensures UpdateCustomer(reg, id, req).Success? ==>
      Valid(UpdateCustomer(reg, id, req).value) && Unique(UpdateCustomer(reg, id, req).value)
  {
    if UpdateCustomer(reg, id, req).Success? {
      SaveKeepsUnique(reg, UpdateEntity(reg.customers[id], req));
    }
  }

  /** Without the table's unique column, the service's own update step would give a
      second customer the NIK of a first one: nothing in `updateCustomer` prevents it,
      and the store refuses the save. */
  lemma UpdateReliesOnStoreForUniqueness(reg: Registry, a: nat, b: nat, req: CustomerRequest)
    requires Valid(reg) && Unique(reg)
    requires a in reg.customers && b in reg.customers && a != b
    requires req.nik == reg.customers[a].nik
    ensures !Unique(reg.(customers := reg.customers[b := UpdateEntity(reg.customers[b], req)]))
    ensures UpdateCustomer(reg, b, req)
         == Failure(UpdateRefusal(UniqueConstraintViolation,
                                  [Event(UpdateEntity(reg.customers[b], req), CustomerUpdated)]))
  {
    var m := reg.customers[b := UpdateEntity(reg.customers[b], req)];
    assert m[a].nik == m[b].nik;
    assert a in reg.customers && a != UpdateEntity(reg.customers[b], req).id;
  }

  /** `verifyCustomer`: any customer, blacklisted or not, becomes verified and ACTIVE. */
  function VerifyCustomer(reg: Registry, id: nat): (r: Result<Registry, CustomerError>)
    ensures r.Failure? <==> id !in reg.customers
    ensures r.Failure? ==> r.error == CustomerNotFound
    ensures r.Success? ==>
      var c := reg.customers[id];
      var c' := c.(isVerified := true, status := Active);
      && r.value.customers == reg.customers[id := c']
      && r.value.nextId == reg.nextId
      && r.value.events == reg.events + [Event(c', CustomerVerified)]
  {
    if id !in reg.customers then Failure(CustomerNotFound)
    else
      var c' := reg.customers[id].(isVerified := true, status := Active);
      Success(reg.(customers := reg.customers[id := c'], events := reg.events + [Event(c', CustomerVerified)]))
  }

  /** `blacklistCustomer`: the customer becomes BLACKLISTED, keeping its verification
      flag, and the event carries the reason. */
  function BlacklistCustomer(reg: Registry, id: nat, reason: string): (r: Result<Registry, CustomerError>)
    ensures r.Failure? <==> id !in reg.customers
    ensures r.Failure? ==> r.error == CustomerNotFound
    ensures r.Success? ==>
      var c := reg.customers[id];
      var c' := c.(status := Blacklisted);
      && r.value.customers == reg.customers[id := c']
      && r.value.nextId == reg.nextId
      && r.value.events == reg.events + [CustomerEvent(c.id, c.nik, c.email, CustomerBlacklisted,
                                                       Some("Reason: " + reason))]
  {
    if id !in reg.customers then Failure(CustomerNotFound)
    else
      var c := reg.customers[id];
      var event := CustomerEvent(c.id, c.nik, c.email, CustomerBlacklisted, Some("Reason: " + reason));
      Success(reg.(customers := reg.customers[id := c.(status := Blacklisted)], events := reg.events + [event]))
  }

  /** Changing only a customer's status or verification flag keeps both invariants. */
  lemma StatusChangeKeepsInvariants(reg: Registry, id: nat, c': Customer)
    requires Valid(reg) && Unique(reg) && id in reg.customers
    requires c'.id == reg.customers[id].id && c'.nik == reg.customers[id].nik
    requires c'.email == reg.customers[id].email
    ensures Valid(reg.(customers := reg.customers[id := c']))
    ensures Unique(reg.(customers := reg.customers[id := c']))
  {
    var m := reg.customers[id := c'];
    forall i, j | i in m && j in m && i != j
      ensures m[i].nik != m[j].nik && m[i].email != m[j].email
    {
      assert m[i].nik == reg.customers[i].nik && m[i].email == reg.customers[i].email;
      assert m[j].nik == reg.customers[j].nik && m[j].email == reg.customers[j].email;
    }
  }

  lemma VerifyKeepsInvariants(reg: Registry, id: nat)
    requires Valid(reg) && Unique(reg)
    ensures VerifyCustomer(reg, id).Success? ==>
      Valid(VerifyCustomer(reg, id).value) && Unique(VerifyCustomer(reg, id).value)
  {
    if id in reg.customers {
      StatusChangeKeepsInvariants(reg, id, reg.customers[id].(isVerified := true, status := Active));
    }
  }

  lemma BlacklistKeepsInvariants(reg: Registry, id: nat, reason: string)
    requires Valid(reg) && Unique(reg)
    ensures BlacklistCustomer(reg, id, reason).Success? ==>
      Valid(BlacklistCustomer(reg, id, reason).value) && Unique(BlacklistCustomer(reg, id, reason).value)
  {
    if id in reg.customers {
      StatusChangeKeepsInvariants(reg, id, reg.customers[id].(status := Blacklisted));
    }
  }

  /** A freshly created customer is found by its id and by its NIK. */
  method CreatedCustomerIsFound(reg: Registry, req: CustomerRequest) returns (byId: Result<Customer, CustomerError>, byNik: Result<Customer, CustomerError>)
    requires Valid(reg) && Unique(reg)
    requires !NikTaken(reg, req.nik) && !EmailTaken(reg, req.email)
    ensures byId == Success(ToEntity(reg.nextId, req))
    ensures byNik == Success(ToEntity(reg.nextId, req))
  {
    var reg' := CreateCustomer(reg, req).value;
    CreateKeepsInvariants(reg, req);
    byId := GetCustomerById(reg', reg.nextId);
    assert NikTaken(reg', req.nik) by {
      assert reg'.customers[reg.nextId].nik == req.nik;
    }
    byNik := GetCustomerByNik(reg', req.nik);
  }

  /** Verification lifts a blacklisting: a blacklisted customer verified again is ACTIVE
      and verified. */
  lemma VerifyLiftsBlacklist(reg: Registry, id: nat, reason: string)
    requires id in reg.customers
    ensures var b := BlacklistCustomer(reg, id, reason).value;
      && b.customers[id].status == Blacklisted
      && b.customers[id].isVerified == reg.customers[id].isVerified
      && VerifyCustomer(b, id).Success?
      && VerifyCustomer(b, id).value.customers[id].status == Active
      && VerifyCustomer(b, id).value.customers[id].isVerified
  {
  }

  /** Verifying twice leaves the customers as verifying once. */
  lemma VerifyIdempotent(reg: Registry, id: nat)
    requires id in reg.customers
    ensures VerifyCustomer(VerifyCustomer(reg, id).value, id).value.customers == VerifyCustomer(reg, id).value.customers
  {
  }
}
