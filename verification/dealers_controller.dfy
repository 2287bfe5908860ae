/**
 The guard chain of DealersController.Become (POST): registering the caller
 as a dealer.
 */
module DealersController {
  import opened Store
  import opened DealerService
  import opened Actions

  /**
   DealersController.Become (POST): a caller who already has a dealer row
   gets BadRequest, before the form is even looked at; an invalid form is
   shown again; otherwise one dealer row is inserted for the caller.
   */
  function BecomePost(st: Store, userId: string, name: string, phoneNumber: string, formValid: bool): (r: Response)
    ensures IsDealer(st.dealers, userId) ==> r == Response(BadRequest, st)
    ensures !IsDealer(st.dealers, userId) && !formValid ==> r == Response(FormWithErrors, st)
    ensures r.result == RedirectToAllCars <==> !IsDealer(st.dealers, userId) && formValid
    ensures r.result != RedirectToAllCars ==> r.store == st
    ensures r.result == RedirectToAllCars ==>
      && r.store.cars == st.cars && r.store.categories == st.categories
      && |r.store.dealers| == |st.dealers| + 1
      && r.store.dealers[..|st.dealers|] == st.dealers
      && var d := r.store.dealers[|st.dealers|];
        && d.name == name && d.phoneNumber == phoneNumber && d.userId == userId
        && !HasDealer(st.dealers, d.id) && d.id >= 1
  {
    var userIdAlreadyDealer := IsDealer(st.dealers, userId);
    if userIdAlreadyDealer then
      Response(BadRequest, st)
    else if !formValid then
      Response(FormWithErrors, st)
    else
      var dealer := Dealer(NextDealerId(st.dealers), name, phoneNumber, userId);
      var dealers := st.dealers + [dealer];
      assert dealers[..|st.dealers|] == st.dealers;
      Response(RedirectToAllCars, st.(dealers := dealers))
  }

  /** Registration keeps one dealer per user, and keeps the catalogue valid. */
  lemma BecomeKeepsInvariants(st: Store, userId: string, name: string, phoneNumber: string, formValid: bool)
    requires Valid(st) && OneDealerPerUser(st.dealers)
    ensures var r := BecomePost(st, userId, name, phoneNumber, formValid);
      Valid(r.store) && OneDealerPerUser(r.store.dealers)
  {
    var r := BecomePost(st, userId, name, phoneNumber, formValid);
    if r.result == RedirectToAllCars {
      var n := |st.dealers|;
      var ds := r.store.dealers;
      assert forall i :: 0 <= i < n ==> ds[i] == st.dealers[i] by {
        forall i | 0 <= i < n ensures ds[i] == st.dealers[i] {
          assert ds[..n][i] == ds[i];
        }
      }
      assert forall i :: 0 <= i < |st.cars| ==> HasDealer(ds, st.cars[i].dealerId) by {
        forall i | 0 <= i < |st.cars| ensures HasDealer(ds, st.cars[i].dealerId) {
          var k :| 0 <= k < n && st.dealers[k].id == st.cars[i].dealerId;
          assert ds[k].id == st.cars[i].dealerId;
        }
      }
    }
  }

  /** Registering the same user twice: the second attempt is a BadRequest that changes nothing. */
  lemma BecomeTwiceConflicts(st: Store, userId: string, name: string, phoneNumber: string,
                             name2: string, phoneNumber2: string, formValid2: bool)
    requires BecomePost(st, userId, name, phoneNumber, true).result == RedirectToAllCars
    ensures var once := BecomePost(st, userId, name, phoneNumber, true).store;
      BecomePost(once, userId, name2, phoneNumber2, formValid2) == Response(BadRequest, once)
  {
    var once := BecomePost(st, userId, name, phoneNumber, true).store;
    assert once.dealers[|st.dealers|].userId == userId;
  }
}
