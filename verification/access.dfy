/** The ownership gate of the detail, update and delete views (`get_object`
    followed by `test_func`) and the three mutating flows: create stamps the
    requester as owner, update and delete are open to the owner only. */
module Access {
  import opened Wrappers
  import opened Models
  import opened Forms

  /** Why a record request is refused: no such primary key (HTTP 404), or an
      authenticated requester who is not the owner (HTTP 403). */
  datatype Denial = NotFound | Forbidden

  /** The gate shared by the detail, update and delete views: look the
      record up by primary key, then apply `test_func`, which admits the
      record's owner only. */
  function CheckOwner(store: Store, pk: RecordId, requester: UserId): (r: Result<Record, Denial>)
    ensures r.Success? <==> pk in store && store[pk].owner == requester
    ensures r.Success? ==> r.value == store[pk]
    ensures r == Failure(NotFound) <==> pk !in store
    ensures r == Failure(Forbidden) <==> pk in store && store[pk].owner != requester
  {
    if pk !in store then Failure(NotFound)
    else if store[pk].owner != requester then Failure(Forbidden)
    else Success(store[pk])
  }

  /** The editable fields of the record form. There is no owner field, so a
      submission cannot choose the owner. `document` is `None` when no file
      was submitted. */
  datatype RecordForm = RecordForm(
    title: string,
    propertyAddress: string,
    description: string,
    category: Option<CategoryId>,
    document: Option<Document>,
    surveyNumber: Option<string>,
    propertySize: Option<string>,
    propertyType: Option<string>)

  /** Why a create or update is refused. */
  datatype Refusal = Denied(denial: Denial) | Invalid(message: string)

  /** Django's message for a required field left empty. */
  const RequiredMessage: string := "This field is required."

  /** The record a valid form produces for `owner`, added at `now`. */
  function FromForm(form: RecordForm, document: Document, owner: UserId, now: int): Record {
    Record(form.title, form.propertyAddress, form.description, owner, form.category,
           document, form.surveyNumber, form.propertySize, form.propertyType, now)
  }

  /** The create view: the document is required and checked by
      `clean_document`; on success the new record, stored under the fresh
      primary key `pk`, is owned by the requester (`form_valid`). */
  function Create(store: Store, requester: UserId, form: RecordForm, pk: RecordId, now: int)
    : (r: Result<Store, Refusal>)
    requires pk !in store
    ensures form.document.None? ==> r == Failure(Invalid(RequiredMessage))
    ensures form.document.Some? && CleanDocument(form.document).Failure? ==>
      r == Failure(Invalid(CleanDocument(form.document).error))
    ensures form.document.Some? && CleanDocument(form.document).Success? ==>
      r == Success(store[pk := FromForm(form, form.document.value, requester, now)])
    ensures r.Success? ==>
      && form.document.Some? && CleanDocument(form.document).Success?
      && r.value.Keys == store.Keys + {pk}
      && r.value[pk].owner == requester
      && r.value[pk].document == form.document.value
      && r.value[pk].title == form.title
      && r.value[pk].category == form.category
      && r.value[pk].dateAdded == now
      && (forall k :: k in store ==> r.value[k] == store[k])
  {
    match form.document
    case None => Failure(Invalid(RequiredMessage))
    case Some(d) =>
      match CleanDocument(Some(d))
      case Failure(msg) => Failure(Invalid(msg))
      case Success(_) => Success(store[pk := FromForm(form, d, requester, now)])
  }

  /** The update view: only the owner may update. With no new upload the
      stored document is kept and re-checked by `clean_document`. The owner
      and the date added never change, and no other record changes. */
  function Update(store: Store, pk: RecordId, requester: UserId, form: RecordForm)
    : (r: Result<Store, Refusal>)
    ensures pk !in store ==> r == Failure(Denied(NotFound))
    ensures pk in store && store[pk].owner != requester ==> r == Failure(Denied(Forbidden))
    ensures pk in store && store[pk].owner == requester ==>
      var d := if form.document.Some? then form.document.value else store[pk].document;
      && (r.Success? <==> CleanDocument(Some(d)).Success?)
      && (r.Failure? ==> r == Failure(Invalid(CleanDocument(Some(d)).error)))
      && (r.Success? ==> r.value == store[pk := FromForm(form, d, store[pk].owner, store[pk].dateAdded)])
    ensures r.Success? ==>
      && pk in store && store[pk].owner == requester
      && r.value.Keys == store.Keys
      && r.value[pk].owner == store[pk].owner
      && r.value[pk].dateAdded == store[pk].dateAdded
      && r.value[pk].document == (if form.document.Some? then form.document.value else store[pk].document)
      && r.value[pk].title == form.title
      && r.value[pk].category == form.category
      && (forall k :: k in store && k != pk ==> r.value[k] == store[k])
  {
    match CheckOwner(store, pk, requester)
    case Failure(denial) => Failure(Denied(denial))
    case Success(current) =>
      var d := if form.document.Some? then form.document.value else current.document;
      match CleanDocument(Some(d))
      case Failure(msg) => Failure(Invalid(msg))
      case Success(_) => Success(store[pk := FromForm(form, d, current.owner, current.dateAdded)])
  }

  /** The delete view: only the owner may delete, and exactly that record
      goes. */
  function Delete(store: Store, pk: RecordId, requester: UserId): (r: Result<Store, Denial>)
    ensures r.Success? <==> pk in store && store[pk].owner == requester
    ensures r.Failure? ==> r == Failure(CheckOwner(store, pk, requester).error)
    ensures r.Success? ==> r.value.Keys == store.Keys - {pk}
    ensures r.Success? ==> forall k :: k in r.value ==> r.value[k] == store[k]
  {
    match CheckOwner(store, pk, requester)
    case Failure(denial) => Failure(denial)
    case Success(_) => Success(store - {pk})
  }

  /** For every record and every user other than its owner, detail, update
      and delete are refused with `Forbidden`; the owner is let through. */
  lemma OwnershipGate(store: Store, pk: RecordId, owner: UserId, other: UserId, form: RecordForm)
    requires pk in store && store[pk].owner == owner && other != owner
    ensures CheckOwner(store, pk, other) == Failure(Forbidden)
    ensures Update(store, pk, other, form) == Failure(Denied(Forbidden))
    ensures Delete(store, pk, other) == Failure(Forbidden)
    ensures CheckOwner(store, pk, owner) == Success(store[pk])
  {
  }

  /** Once a user is deleted the gate never lets that user through, and
      their records are "not found" for everybody; every other record is
      gated exactly as before. */
  lemma DeletedUserGate(store: Store, user: UserId, pk: RecordId, requester: UserId)
    ensures CheckOwner(DeleteUser(store, user), pk, user).Failure?
    ensures pk in store && store[pk].owner == user ==>
      CheckOwner(DeleteUser(store, user), pk, requester) == Failure(NotFound)
    ensures !(pk in store && store[pk].owner == user) ==>
      CheckOwner(DeleteUser(store, user), pk, requester) == CheckOwner(store, pk, requester)
  {
  }

  /** No successful create, update or delete changes the owner of a record
      that survives it. */
  lemma OwnersNeverChange(store: Store, requester: UserId, form: RecordForm, pk: RecordId,
                          newPk: RecordId, now: int)
    requires newPk !in store
    ensures Create(store, requester, form, newPk, now).Success? ==>
      forall k :: k in store ==> Create(store, requester, form, newPk, now).value[k].owner == store[k].owner
    ensures Update(store, pk, requester, form).Success? ==>
      forall k :: k in store ==> Update(store, pk, requester, form).value[k].owner == store[k].owner
    ensures Delete(store, pk, requester).Success? ==>
      forall k :: k in Delete(store, pk, requester).value ==>
        Delete(store, pk, requester).value[k].owner == store[k].owner
  {
  }
}
