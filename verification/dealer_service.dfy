/**
 DealerService: whether an identity-provider user is a dealer, and that
 dealer's key, with 0 standing for "no dealer".
 */
module DealerService {
  import opened Store

  /** DealerService.IsDealerAsync: some dealer row belongs to `userId`. */
  function IsDealer(dealers: seq<Dealer>, userId: string): (r: bool)
    ensures r <==> exists i :: 0 <= i < |dealers| && dealers[i].userId == userId
  {
    if |dealers| == 0 then false
    else if dealers[0].userId == userId then true
    else
      assert forall i :: 1 <= i < |dealers| ==> dealers[i] == dealers[1..][i - 1];
      IsDealer(dealers[1..], userId)
  }

  /**
   DealerService.IdByUserAsync: the key of the first dealer row belonging to
   `userId`, or 0 (the default of int) when there is none.
   */
  function IdByUser(dealers: seq<Dealer>, userId: string): (r: int)
    ensures (forall i :: 0 <= i < |dealers| ==> dealers[i].userId != userId) ==> r == 0
    ensures (exists i :: 0 <= i < |dealers| && dealers[i].userId == userId) ==>
      exists i :: 0 <= i < |dealers| && dealers[i].userId == userId && dealers[i].id == r
        && forall j :: 0 <= j < i ==> dealers[j].userId != userId
  {
    if |dealers| == 0 then 0
    else if dealers[0].userId == userId then dealers[0].id
    else
      var rest := IdByUser(dealers[1..], userId);
      assert forall i :: 1 <= i < |dealers| ==> dealers[i] == dealers[1..][i - 1];
      if exists i :: 0 <= i < |dealers[1..]| && dealers[1..][i].userId == userId then
        var i :| 0 <= i < |dealers[1..]| && dealers[1..][i].userId == userId && dealers[1..][i].id == rest
          && forall j :: 0 <= j < i ==> dealers[1..][j].userId != userId;
        assert dealers[i + 1].userId == userId && dealers[i + 1].id == rest;
        assert forall j :: 0 <= j < i + 1 ==> dealers[j].userId != userId by {
          forall j | 0 <= j < i + 1 ensures dealers[j].userId != userId {
            if j > 0 {
              assert dealers[j] == dealers[1..][j - 1];
            }
          }
        }
        rest
      else
        rest
  }

  /** A non-zero key is only ever returned for a dealer. */
  lemma NonZeroIdMeansDealer(dealers: seq<Dealer>, userId: string)
    requires IdByUser(dealers, userId) != 0
    ensures IsDealer(dealers, userId)
  {
  }

  /** With identity keys (never 0), the sentinel 0 means exactly "not a dealer". */
  lemma ZeroIdMeansNotDealer(dealers: seq<Dealer>, userId: string)
    requires forall i :: 0 <= i < |dealers| ==> dealers[i].id != 0
    ensures IdByUser(dealers, userId) == 0 <==> !IsDealer(dealers, userId)
  {
    if IsDealer(dealers, userId) {
      var i :| 0 <= i < |dealers| && dealers[i].userId == userId && dealers[i].id == IdByUser(dealers, userId);
    }
  }

  /** With one dealer per user, IdByUser returns that user's dealer. */
  lemma IdByUserIsTheDealer(dealers: seq<Dealer>, i: int)
    requires OneDealerPerUser(dealers)
    requires 0 <= i < |dealers|
    ensures IdByUser(dealers, dealers[i].userId) == dealers[i].id
  {
    var u := dealers[i].userId;
    var k :| 0 <= k < |dealers| && dealers[k].userId == u && dealers[k].id == IdByUser(dealers, u);
  }
}
