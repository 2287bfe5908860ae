/**
 The guard chains of CarsController: Add (POST), Edit (GET) and Edit
 (POST). The caller's user id, admin role and ModelState.IsValid are inputs.
 */
module CarsController {
  import opened Store
  import opened DealerService
  import opened CarService
  import opened Actions

  // ---------------------------------------------------------------------
  // Add (POST)
  // ---------------------------------------------------------------------

  /**
   CarsController.Add (POST): a caller without a dealer is sent to become
   one; an unknown category or an invalid form shows the form again;
   otherwise a Pending car owned by the caller's dealer is created.
   */
  function AddPost(st: Store, userId: string, form: CarForm, formValid: bool): (r: Response)
    ensures IdByUser(st.dealers, userId) == 0 ==> r == Response(RedirectToBecomeDealer, st)
    ensures IdByUser(st.dealers, userId) != 0 && (!CategoryExists(st.categories, form.categoryId) || !formValid)
      ==> r == Response(FormWithErrors, st)
    ensures r.result.RedirectToCarDetails? <==>
      IdByUser(st.dealers, userId) != 0 && CategoryExists(st.categories, form.categoryId) && formValid
    ensures !r.result.RedirectToCarDetails? ==> r.store == st
    ensures r.result.RedirectToCarDetails? ==>
      var id := r.result.carId;
      && !HasCar(st.cars, id)
      && |r.store.cars| == |st.cars| + 1
      && r.store.cars[..|st.cars|] == st.cars
      && FindCar(r.store.cars, id) == Some(Car(id, form.brand, form.model, form.description, form.imageUrl,
        form.year, form.categoryId, IdByUser(st.dealers, userId), false))
      && r.store.dealers == st.dealers && r.store.categories == st.categories
  {
    var dealerId := IdByUser(st.dealers, userId);
    if dealerId == 0 then
      Response(RedirectToBecomeDealer, st)
    else
      var modelValid := CategoryExists(st.categories, form.categoryId) && formValid;
      if !modelValid then
        Response(FormWithErrors, st)
      else
        var created := Create(st, form, dealerId);
        Response(RedirectToCarDetails(created.carId), created.store)
  }

  /**
   In a valid catalogue, a successful Add creates the car for the dealer that
   belongs to the caller, and the catalogue stays valid.
   */
  lemma AddPostOwnedByCaller(st: Store, userId: string, form: CarForm, formValid: bool)
    requires Valid(st)
    requires AddPost(st, userId, form, formValid).result.RedirectToCarDetails?
    ensures var r := AddPost(st, userId, form, formValid);
      && Valid(r.store)
      && (exists i :: 0 <= i < |st.dealers| && st.dealers[i].userId == userId
            && FindCar(r.store.cars, r.result.carId).value.dealerId == st.dealers[i].id)
  {
    var dealerId := IdByUser(st.dealers, userId);
    var i :| 0 <= i < |st.dealers| && st.dealers[i].userId == userId && st.dealers[i].id == dealerId
      && forall j :: 0 <= j < i ==> st.dealers[j].userId != userId;
    CreateKeepsValid(st, form, dealerId);
  }

  /**
   Whatever Add answers, a valid catalogue stays valid: the dealer sentinel
   and the category check stand between the form and the insert.
   */
  lemma AddPostKeepsValid(st: Store, userId: string, form: CarForm, formValid: bool)
    requires Valid(st)
    ensures Valid(AddPost(st, userId, form, formValid).store)
  {
    if AddPost(st, userId, form, formValid).result.RedirectToCarDetails? {
      AddPostOwnedByCaller(st, userId, form, formValid);
    }
  }

  // ---------------------------------------------------------------------
  // Edit (GET)
  // ---------------------------------------------------------------------

  /**
   CarsController.Edit (GET): neither dealer nor admin is sent to become a
   dealer; a missing car makes the action dereference null; a non-admin who
   does not own the car is Unauthorized; otherwise the form is shown.
   */
  function EditGet(st: Store, userId: string, isAdmin: bool, id: int): (r: ActionResult)
    ensures !IsDealer(st.dealers, userId) && !isAdmin ==> r == RedirectToBecomeDealer
    ensures (IsDealer(st.dealers, userId) || isAdmin) && !HasCar(st.cars, id) ==> r == NullReferenceFault
    ensures r == Unauthorized <==>
      (IsDealer(st.dealers, userId) || isAdmin) && HasCar(st.cars, id) && !isAdmin
      && OwnerUserId(st.dealers, FindCar(st.cars, id).value) != Some(userId)
    ensures r.EditForm? ==>
      FindCar(st.cars, id) == Some(r.car) && (isAdmin || OwnerUserId(st.dealers, r.car) == Some(userId))
    ensures ((IsDealer(st.dealers, userId) || isAdmin) && HasCar(st.cars, id)
      && (isAdmin || OwnerUserId(st.dealers, FindCar(st.cars, id).value) == Some(userId)))
      ==> r == EditForm(FindCar(st.cars, id).value)
  {
    if !IsDealer(st.dealers, userId) && !isAdmin then
      RedirectToBecomeDealer
    else
      match FindCar(st.cars, id)
      case None => NullReferenceFault
      case Some(car) =>
        if OwnerUserId(st.dealers, car) != Some(userId) && !isAdmin then Unauthorized
        else EditForm(car)
  }

  /** An admin reaches the edit form of every existing car. */
  lemma EditGetAdminSeesEveryCar(st: Store, userId: string, id: int)
    requires HasCar(st.cars, id)
    ensures EditGet(st, userId, true, id) == EditForm(FindCar(st.cars, id).value)
  {
  }

  // ---------------------------------------------------------------------
  // Edit (POST)
  // ---------------------------------------------------------------------

  /** The caller may edit at all: a dealer (non-zero key) or an admin. */
  predicate MayEdit(st: Store, userId: string, isAdmin: bool)
  {
    IdByUser(st.dealers, userId) != 0 || isAdmin
  }

  /** The form passes validation, including the category check. */
  predicate FormAccepted(st: Store, form: CarForm, formValid: bool)
  {
    CategoryExists(st.categories, form.categoryId) && formValid
  }

  /**
   CarsController.Edit (POST): the same dealer and form guards as Add, then
   the ownership check that admins bypass, then the edit, which publishes the
   car when the caller is an admin and sends it back to Pending otherwise.
   */
  function EditPost(st: Store, userId: string, isAdmin: bool, id: int, form: CarForm, formValid: bool): (r: Response)
    ensures !MayEdit(st, userId, isAdmin) ==> r == Response(RedirectToBecomeDealer, st)
    ensures MayEdit(st, userId, isAdmin) && !FormAccepted(st, form, formValid) ==> r == Response(FormWithErrors, st)
    ensures (MayEdit(st, userId, isAdmin) && FormAccepted(st, form, formValid) && !isAdmin
      && !IsByDealer(st.cars, id, IdByUser(st.dealers, userId))) ==> r == Response(BadRequest, st)
    ensures r.result.RedirectToCarDetails? <==>
      && MayEdit(st, userId, isAdmin) && FormAccepted(st, form, formValid)
      && (isAdmin || IsByDealer(st.cars, id, IdByUser(st.dealers, userId)))
      && HasCar(st.cars, id)
    ensures r.result.RedirectToCarDetails? ==> r.result.carId == id && r.store == Edit(st, id, form, isAdmin).store
    ensures !r.result.RedirectToCarDetails? ==> r.store == st
  {
    var dealerId := IdByUser(st.dealers, userId);
    if dealerId == 0 && !isAdmin then
      Response(RedirectToBecomeDealer, st)
    else if !(CategoryExists(st.categories, form.categoryId) && formValid) then
      Response(FormWithErrors, st)
    else if !IsByDealer(st.cars, id, dealerId) && !isAdmin then
      Response(BadRequest, st)
    else
      var e := Edit(st, id, form, isAdmin);
      if !e.edited then Response(BadRequest, st)
      else Response(RedirectToCarDetails(id), e.store)
  }

  /** A successful edit by a non-admin leaves the car Pending, whatever it was before. */
  lemma NonAdminEditForcesPending(st: Store, userId: string, id: int, form: CarForm, formValid: bool)
    requires UniqueCarIds(st.cars)
    requires EditPost(st, userId, false, id, form, formValid).result.RedirectToCarDetails?
    ensures var r := EditPost(st, userId, false, id, form, formValid);
      FindCar(r.store.cars, id).Some? && !FindCar(r.store.cars, id).value.isPublic
  {
    EditThenFind(st, id, form, false);
  }

  /** A successful edit by an admin leaves the car Published, whatever it was before. */
  lemma AdminEditPublishes(st: Store, userId: string, id: int, form: CarForm, formValid: bool)
    requires UniqueCarIds(st.cars)
    requires EditPost(st, userId, true, id, form, formValid).result.RedirectToCarDetails?
    ensures var r := EditPost(st, userId, true, id, form, formValid);
      FindCar(r.store.cars, id).Some? && FindCar(r.store.cars, id).value.isPublic
  {
    EditThenFind(st, id, form, true);
  }

  /** A successful edit changes only the edited car's form fields and visibility. */
  lemma EditPostChangesOnlyThatCar(st: Store, userId: string, isAdmin: bool, id: int, form: CarForm, formValid: bool)
    requires Valid(st)
    requires EditPost(st, userId, isAdmin, id, form, formValid).result.RedirectToCarDetails?
    ensures var r := EditPost(st, userId, isAdmin, id, form, formValid);
      && Valid(r.store)
      && r.store.dealers == st.dealers && r.store.categories == st.categories
      && |r.store.cars| == |st.cars|
      && forall i :: 0 <= i < |st.cars| ==>
        && r.store.cars[i].id == st.cars[i].id
        && r.store.cars[i].dealerId == st.cars[i].dealerId
        && (st.cars[i].id != id ==> r.store.cars[i] == st.cars[i])
  {
    EditKeepsValid(st, id, form, isAdmin);
  }

  /**
   Whatever Edit answers, a valid catalogue stays valid; in particular the
   category check keeps every CategoryId pointing at a category.
   */
  lemma EditPostKeepsValid(st: Store, userId: string, isAdmin: bool, id: int, form: CarForm, formValid: bool)
    requires Valid(st)
    ensures Valid(EditPost(st, userId, isAdmin, id, form, formValid).store)
  {
    if EditPost(st, userId, isAdmin, id, form, formValid).result.RedirectToCarDetails? {
      EditKeepsValid(st, id, form, isAdmin);
    }
  }

  /** Editing a car that does not exist, once past the guards, is a BadRequest that changes nothing. */
  lemma EditPostMissingCar(st: Store, userId: string, isAdmin: bool, id: int, form: CarForm, formValid: bool)
    requires !HasCar(st.cars, id)
    requires MayEdit(st, userId, isAdmin) && FormAccepted(st, form, formValid)
    ensures EditPost(st, userId, isAdmin, id, form, formValid) == Response(BadRequest, st)
  {
  }

  /**
   With identity keys, the GET and POST guards agree: the POST's sentinel
   test turns away exactly the callers the GET's IsDealer test turns away.
   */
  lemma EditGuardsAgree(st: Store, userId: string, isAdmin: bool, id: int)
    requires Valid(st)
    ensures MayEdit(st, userId, isAdmin) <==> EditGet(st, userId, isAdmin, id) != RedirectToBecomeDealer
  {
    ZeroIdMeansNotDealer(st.dealers, userId);
  }
}
