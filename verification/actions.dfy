/**
 What a controller action answers, reduced to the decision it encodes, and
 the catalogue it leaves behind.
 */
module Actions {
  import opened Store

  datatype ActionResult =
    | RedirectToBecomeDealer       // RedirectToAction(Become, "Dealers")
    | RedirectToCarDetails(carId: int)
    | RedirectToAllCars
    | FormWithErrors               // the form view shown again
    | EditForm(car: Car)           // the edit form pre-filled with the car
    | BadRequest
    | Unauthorized
    | NullReferenceFault           // an unhandled NullReferenceException

  datatype Response = Response(result: ActionResult, store: Store)
}
