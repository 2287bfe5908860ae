/**
 The write side of CarService and its small existence queries: creating a
 car (always Pending), editing it (visibility set by the caller), flipping
 its visibility, and the ownership and category checks the controllers use.
 */
module CarService {
  import opened Seqs
  import opened Store
  import opened DealerService

  /** What CreateAsync hands back: the new key and the updated catalogue. */
  datatype Created = Created(carId: int, store: Store)

  /** What EditAsync hands back: whether a car was found, and the updated catalogue. */
  datatype Edited = Edited(edited: bool, store: Store)

  /** A change applied to one car row, in place. */
  datatype Change = Overwrite(form: CarForm, isPublic: bool) | FlipVisibility

  function Apply(ch: Change, c: Car): Car
  {
    match ch
    case Overwrite(f, p) =>
      c.(brand := f.brand, model := f.model, description := f.description,
         imageUrl := f.imageUrl, year := f.year, categoryId := f.categoryId, isPublic := p)
    case FlipVisibility => c.(isPublic := !c.isPublic)
  }

  /** Applies `ch` to the row(s) with key `id`, leaving every other row as it was. */
  function UpdateCar(cars: seq<Car>, id: int, ch: Change): (r: seq<Car>)
    ensures |r| == |cars|
    ensures forall i :: 0 <= i < |cars| ==> r[i] == if cars[i].id == id then Apply(ch, cars[i]) else cars[i]
  {
    seq(|cars|, i requires 0 <= i < |cars| => if cars[i].id == id then Apply(ch, cars[i]) else cars[i])
  }

  // ---------------------------------------------------------------------
  // CreateAsync
  // ---------------------------------------------------------------------

  /**
   CarService.CreateAsync: inserts one car built from the form, owned by
   `dealerId` and Pending, under a key no existing car has.
   */
  function Create(st: Store, form: CarForm, dealerId: int): (r: Created)
    ensures !HasCar(st.cars, r.carId)
    ensures forall i :: 0 <= i < |st.cars| ==> st.cars[i].id < r.carId
    ensures |r.store.cars| == |st.cars| + 1
    ensures r.store.cars[..|st.cars|] == st.cars
    ensures FindCar(r.store.cars, r.carId) == Some(Car(r.carId, form.brand, form.model, form.description,
      form.imageUrl, form.year, form.categoryId, dealerId, false))
    ensures r.store.dealers == st.dealers && r.store.categories == st.categories
  {
    var id := NextCarId(st.cars);
    var car := Car(id, form.brand, form.model, form.description, form.imageUrl, form.year,
      form.categoryId, dealerId, false);
    var cars := st.cars + [car];
    assert cars[..|st.cars|] == st.cars;
    assert cars[|st.cars|] == car;
    Created(id, st.(cars := cars))
  }

  /** Creating a car for an existing dealer keeps the catalogue's keys and references intact. */
  lemma CreateKeepsValid(st: Store, form: CarForm, dealerId: int)
    requires Valid(st)
    requires HasDealer(st.dealers, dealerId)
    requires HasCategory(st.categories, form.categoryId)
    ensures Valid(Create(st, form, dealerId).store)
  {
    var car := Car(NextCarId(st.cars), form.brand, form.model, form.description, form.imageUrl, form.year,
      form.categoryId, dealerId, false);
    var cars := st.cars + [car];
    assert Create(st, form, dealerId).store == st.(cars := cars);
    assert forall i :: 0 <= i < |st.cars| ==> cars[i] == st.cars[i];
    assert cars[|st.cars|] == car;
  }

  // ---------------------------------------------------------------------
  // EditAsync
  // ---------------------------------------------------------------------

  /**
   CarService.EditAsync: when the car exists, overwrites its six form fields
   and sets its visibility to `isPublic`, keeping its key and dealer;
   otherwise reports false and changes nothing.
   */
  function Edit(st: Store, id: int, form: CarForm, isPublic: bool): (r: Edited)
    ensures r.edited <==> HasCar(st.cars, id)
    ensures !r.edited ==> r.store == st
    ensures r.store.dealers == st.dealers && r.store.categories == st.categories
    ensures |r.store.cars| == |st.cars|
    ensures forall i :: 0 <= i < |st.cars| && st.cars[i].id != id ==> r.store.cars[i] == st.cars[i]
    ensures forall i :: 0 <= i < |st.cars| && st.cars[i].id == id ==>
      r.store.cars[i] == Car(id, form.brand, form.model, form.description, form.imageUrl, form.year,
        form.categoryId, st.cars[i].dealerId, isPublic)
  {
    match FindCar(st.cars, id)
    case None => Edited(false, st)
    case Some(_) => Edited(true, st.(cars := UpdateCar(st.cars, id, Overwrite(form, isPublic))))
  }

  /** After a successful edit, looking the car up shows the new fields and the requested visibility. */
  lemma EditThenFind(st: Store, id: int, form: CarForm, isPublic: bool)
    requires UniqueCarIds(st.cars)
    requires HasCar(st.cars, id)
    ensures var old_ := FindCar(st.cars, id).value;
      FindCar(Edit(st, id, form, isPublic).store.cars, id) == Some(Car(id, form.brand, form.model,
        form.description, form.imageUrl, form.year, form.categoryId, old_.dealerId, isPublic))
  {
    var i :| 0 <= i < |st.cars| && st.cars[i].id == id;
    FindCarUnique(st.cars, i);
    var cars := Edit(st, id, form, isPublic).store.cars;
    assert UniqueCarIds(cars) by {
      assert forall k :: 0 <= k < |cars| ==> cars[k].id == st.cars[k].id;
    }
    FindCarUnique(cars, i);
  }

  /** Editing with an existing category keeps the catalogue's keys and references intact. */
  lemma EditKeepsValid(st: Store, id: int, form: CarForm, isPublic: bool)
    requires Valid(st)
    requires HasCategory(st.categories, form.categoryId)
    ensures Valid(Edit(st, id, form, isPublic).store)
  {
    var cars := Edit(st, id, form, isPublic).store.cars;
    assert forall k :: 0 <= k < |cars| ==> cars[k].id == st.cars[k].id && cars[k].dealerId == st.cars[k].dealerId;
    assert forall k :: 0 <= k < |cars| ==> cars[k].categoryId == st.cars[k].categoryId || cars[k].categoryId == form.categoryId;
  }

  /**
   Without the category check an edit can break the CategoryId reference:
   the edited row points at whatever key the form names.
   */
  lemma EditWithUnknownCategoryBreaksValid(st: Store, id: int, form: CarForm, isPublic: bool)
    requires HasCar(st.cars, id)
    requires !HasCategory(st.categories, form.categoryId)
    ensures !Valid(Edit(st, id, form, isPublic).store)
  {
    var i :| 0 <= i < |st.cars| && st.cars[i].id == id;
    assert Edit(st, id, form, isPublic).store.cars[i].categoryId == form.categoryId;
  }

  // ---------------------------------------------------------------------
  // ChangeVisilityAsync
  // ---------------------------------------------------------------------

  /**
   CarService.ChangeVisilityAsync: flips Pending and Published on the car
   with key `carId`. The source dereferences the lookup result without a
   null check, so the car must exist.
   */
  function ChangeVisibility(st: Store, carId: int): (r: Store)
    requires HasCar(st.cars, carId)
    ensures r.dealers == st.dealers && r.categories == st.categories
    ensures |r.cars| == |st.cars|
    ensures forall i :: 0 <= i < |st.cars| ==>
      && r.cars[i].id == st.cars[i].id
      && (st.cars[i].id == carId ==> r.cars[i].isPublic == !st.cars[i].isPublic)
      && r.cars[i].(isPublic := st.cars[i].isPublic) == st.cars[i]
      && (st.cars[i].id != carId ==> r.cars[i] == st.cars[i])
  {
    st.(cars := UpdateCar(st.cars, carId, FlipVisibility))
  }

  /** Flipping visibility twice restores the catalogue. */
  lemma ChangeVisibilityTwice(st: Store, carId: int)
    requires HasCar(st.cars, carId)
    ensures ChangeVisibility(ChangeVisibility(st, carId), carId) == st
  {
    var once := ChangeVisibility(st, carId);
    assert HasCar(once.cars, carId) by {
      var i :| 0 <= i < |st.cars| && st.cars[i].id == carId;
      assert once.cars[i].id == carId;
    }
    var twice := ChangeVisibility(once, carId);
    assert twice.cars == st.cars;
  }

  /** Flipping visibility keeps the catalogue's keys and references intact. */
  lemma ChangeVisibilityKeepsValid(st: Store, carId: int)
    requires Valid(st) && HasCar(st.cars, carId)
    ensures Valid(ChangeVisibility(st, carId))
  {
    var cars := ChangeVisibility(st, carId).cars;
    assert forall k :: 0 <= k < |cars| ==>
      (cars[k].id == st.cars[k].id && cars[k].dealerId == st.cars[k].dealerId && cars[k].categoryId == st.cars[k].categoryId);
  }

  /**
   The approval round trip: a new car is Pending, one flip publishes it and
   a second flip makes it Pending again.
   */
  lemma CreateApproveRevoke(st: Store, form: CarForm, dealerId: int)
    requires UniqueCarIds(st.cars)
    ensures var c := Create(st, form, dealerId);
      var approved := ChangeVisibility(c.store, c.carId);
      && FindCar(c.store.cars, c.carId).value.isPublic == false
      && FindCar(approved.cars, c.carId).value.isPublic == true
      && ChangeVisibility(approved, c.carId) == c.store
  {
    var c := Create(st, form, dealerId);
    var n := |st.cars|;
    assert c.store.cars[n].id == c.carId by {
      var k :| 0 <= k < |c.store.cars| && c.store.cars[k] == FindCar(c.store.cars, c.carId).value;
      if k < n {
        assert c.store.cars[..n][k] == c.store.cars[k];
      }
    }
    assert UniqueCarIds(c.store.cars) by {
      forall i, j | 0 <= i < |c.store.cars| && 0 <= j < |c.store.cars| && i != j
        ensures c.store.cars[i].id != c.store.cars[j].id
      {
        if i < n {
          assert c.store.cars[..n][i] == c.store.cars[i];
        }
        if j < n {
          assert c.store.cars[..n][j] == c.store.cars[j];
        }
      }
    }
    FindCarUnique(c.store.cars, n);
    var approved := ChangeVisibility(c.store, c.carId);
    assert UniqueCarIds(approved.cars) by {
      assert forall k :: 0 <= k < |approved.cars| ==> approved.cars[k].id == c.store.cars[k].id;
    }
    FindCarUnique(approved.cars, n);
    ChangeVisibilityTwice(c.store, c.carId);
  }

  // ---------------------------------------------------------------------
  // Existence queries
  // ---------------------------------------------------------------------

  /** CarService.IsByDealerAsync: the car with key `carId` exists and belongs to `dealerId`. */
  function IsByDealer(cars: seq<Car>, carId: int, dealerId: int): (r: bool)
    ensures r <==> exists i :: 0 <= i < |cars| && cars[i].id == carId && cars[i].dealerId == dealerId
  {
    if |cars| == 0 then false
    else if cars[0].id == carId && cars[0].dealerId == dealerId then true
    else
      assert forall i :: 1 <= i < |cars| ==> cars[i] == cars[1..][i - 1];
      IsByDealer(cars[1..], carId, dealerId)
  }

  /** CarService.CategoryExistsAsync: some category has key `categoryId`. */
  function CategoryExists(categories: seq<Category>, categoryId: int): (r: bool)
    ensures r <==> HasCategory(categories, categoryId)
  {
    if |categories| == 0 then false
    else if categories[0].id == categoryId then true
    else
      assert forall i :: 1 <= i < |categories| ==> categories[i] == categories[1..][i - 1];
      CategoryExists(categories[1..], categoryId)
  }

  /** The UserId of the car's dealer (the Car.Dealer.UserId navigation), or null without one. */
  function OwnerUserId(dealers: seq<Dealer>, car: Car): (r: Option<string>)
    ensures r.Some? <==> HasDealer(dealers, car.dealerId)
    ensures r.Some? ==> exists i :: 0 <= i < |dealers| && dealers[i].id == car.dealerId && dealers[i].userId == r.value
  {
    match FindDealer(dealers, car.dealerId)
    case None => None
    case Some(d) =>
      var k :| 0 <= k < |dealers| && dealers[k] == d;
      Some(d.userId)
  }

  /** The predicate of ByUserAsync's Where clause: the car's dealer belongs to `userId`. */
  function OwnedByUser(dealers: seq<Dealer>, userId: string): Car -> bool
  {
    (c: Car) => OwnerUserId(dealers, c) == Some(userId)
  }

  /** With unique dealer keys, a car is owned by `userId` iff some dealer with its DealerId belongs to `userId`. */
  lemma OwnedByUserIff(dealers: seq<Dealer>, userId: string, c: Car)
    requires UniqueDealerIds(dealers)
    ensures OwnedByUser(dealers, userId)(c) <==>
      exists i :: 0 <= i < |dealers| && dealers[i].id == c.dealerId && dealers[i].userId == userId
  {
    if exists i :: 0 <= i < |dealers| && dealers[i].id == c.dealerId && dealers[i].userId == userId {
      var i :| 0 <= i < |dealers| && dealers[i].id == c.dealerId && dealers[i].userId == userId;
      var d := FindDealer(dealers, c.dealerId).value;
      var k :| 0 <= k < |dealers| && dealers[k] == d;
    }
  }

  /** CarService.ByUserAsync: the cars whose dealer belongs to `userId`, in catalogue order. */
  function ByUser(st: Store, userId: string): (r: seq<Car>)
    ensures UniqueDealerIds(st.dealers) ==> forall c :: c in r <==>
      c in st.cars && exists i :: 0 <= i < |st.dealers| && st.dealers[i].id == c.dealerId && st.dealers[i].userId == userId
    ensures forall c :: multiset(r)[c] == if OwnedByUser(st.dealers, userId)(c) then multiset(st.cars)[c] else 0
  {
    var owned := OwnedByUser(st.dealers, userId);
    FilterMultiset(st.cars, owned);
    if UniqueDealerIds(st.dealers) then
      assert forall c :: owned(c) <==>
        exists i :: 0 <= i < |st.dealers| && st.dealers[i].id == c.dealerId && st.dealers[i].userId == userId by {
        forall c {
          OwnedByUserIff(st.dealers, userId, c);
        }
      }
      Filter(st.cars, owned)
    else
      Filter(st.cars, owned)
  }

  /**
   With one dealer per user, every car ByUserAsync lists for a user passes
   the ownership check IsByDealerAsync for that user's dealer key.
   */
  lemma ByUserCarsAreOwned(st: Store, userId: string)
    requires Valid(st) && OneDealerPerUser(st.dealers)
    ensures forall c :: c in ByUser(st, userId) ==> IsByDealer(st.cars, c.id, IdByUser(st.dealers, userId))
  {
    forall c | c in ByUser(st, userId)
      ensures IsByDealer(st.cars, c.id, IdByUser(st.dealers, userId))
    {
      var i :| 0 <= i < |st.dealers| && st.dealers[i].id == c.dealerId && st.dealers[i].userId == userId;
      IdByUserIsTheDealer(st.dealers, i);
      var k :| 0 <= k < |st.cars| && st.cars[k] == c;
    }
  }
}
